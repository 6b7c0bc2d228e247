/** The user registry of core/user_manager.py (class `UserManager`).

    The registry is the `_users` dictionary: user id to a stored entry.
    A Python dictionary keeps its keys in insertion order, which
    `get_all_users` and `get_statistics` expose, so the model keeps the
    keys in order (`ids`) beside the map from id to entry (`users`).

    Stored entries come from a JSON file and may lack keys; every field of
    an `Entry` is an `Option`, `None` standing for a missing key. The clock
    (`datetime.now().isoformat()`), the password hash (SHA-256) and the
    outcome of writing the file are parameters. */
module UserManager {
  import opened Common

  // -----------------------------------------------------------------------
  // Records

  /** A stored user entry, as `_users[user_id]` holds it. */
  datatype Entry = Entry(
    userId: Option<string>,
    name: Option<string>,
    major: Option<string>,
    role: Option<string>,
    createdAt: Option<string>,
    lastLogin: Option<string>,
    loginCount: Option<int>,
    resumeVersions: Option<seq<string>>,
    passwordHash: Option<string>)

  /** The `User` dataclass. */
  datatype User = User(
    userId: string,
    name: string,
    major: string,
    role: string,
    createdAt: string,
    lastLogin: string,
    loginCount: int,
    resumeVersions: seq<string>)

  /** The `UserSession` dataclass. */
  datatype UserSession = UserSession(user: User, loginTime: string, isAuthenticated: bool)

  /** `d.get(key, default)`. */
  function OrElse<T>(o: Option<T>, default: T): T {
    match o
    case Some(v) => v
    case None => default
  }

  /** The `User` built from a stored entry: `user_id` and `name` are read
      with `[]` and raise `KeyError` when missing (None here); the other
      fields take their defaults, and an empty creation time is replaced by
      the current time, as `User.__post_init__` does. */
  function UserOf(e: Entry, now: string): Option<User> {
    if e.userId.None? || e.name.None? then None
    else
      var created := OrElse(e.createdAt, "");
      Some(User(e.userId.value, e.name.value, OrElse(e.major, "journalism"), OrElse(e.role, "student"),
                if created == "" then now else created, OrElse(e.lastLogin, ""),
                OrElse(e.loginCount, 0), OrElse(e.resumeVersions, [])))
  }

  /** The ids kept in order and the map agree: every id once, and exactly
      the map's keys. */
  ghost predicate Registry(ids: seq<string>, users: map<string, Entry>) {
    Distinct(ids) && forall k :: k in users <==> k in ids
  }

  /** The number of users is the number of ids. */
  lemma RegistrySize(ids: seq<string>, users: map<string, Entry>)
    requires Registry(ids, users)
    ensures |users| == |ids|
  {
    DistinctCard(ids);
    assert users.Keys == Elements(ids);
  }

  // -----------------------------------------------------------------------
  // User ids

  /** 3 to 20 characters from [A-Za-z0-9_]. */
  predicate IdBody(s: string) {
    3 <= |s| <= 20 && forall i :: 0 <= i < |s| ==> IsWordChar(s[i])
  }

  /** `_validate_user_id` as written: `re.match` with a pattern ending in
      `$`, which also matches just before a final newline. */
  predicate ValidateUserIdAsWritten(s: string) {
    IdBody(s) || (|s| >= 1 && s[|s| - 1] == '\n' && IdBody(s[..|s| - 1]))
  }

  /** The id check the comment of `_validate_user_id` describes: letters,
      digits and underscores only, 3 to 20 of them. */
  predicate ValidateUserId(s: string) {
    IdBody(s)
  }

  /** As written, the check accepts an id that ends in a newline. */
  lemma NewlineIdAccepted()
    ensures ValidateUserIdAsWritten("abc\n") && !ValidateUserId("abc\n")
  {
    assert "abc\n"[..3] == "abc";
    assert !IsWordChar("abc\n"[3]);
  }

  /** An accepted id holds no whitespace, is left alone by `strip` and has
      3 to 20 characters. */
  lemma ValidIdIsBare(s: string)
    requires ValidateUserId(s)
    ensures forall i :: 0 <= i < |s| ==> !IsSpace(s[i])
    ensures Strip(s) == s && 3 <= |s| <= 20
  {
    assert forall i :: 0 <= i < |s| ==> !IsSpace(s[i]) by {
      forall i | 0 <= i < |s| ensures !IsSpace(s[i]) { assert IsWordChar(s[i]); }
    }
    StripFixed(s);
  }

  /** The corrected check accepts exactly what the one as written accepts
      without a final newline. */
  lemma ValidateUserIdCorrected(s: string)
    ensures ValidateUserId(s) <==> ValidateUserIdAsWritten(s) && (s == [] || s[|s| - 1] != '\n')
  {
    if ValidateUserId(s) {
      assert IsWordChar(s[|s| - 1]);
    }
  }

  // -----------------------------------------------------------------------
  // Registration

  /** What `register` decides before it writes: the first check that
      fails, or `Accepted`. */
  datatype RegisterCheck = InvalidId | Taken | NameTooShort | PasswordTooShort | Accepted

  function CheckRegistration(users: map<string, Entry>, userId: string, name: string, password: string): (c: RegisterCheck)
    ensures c == Accepted <==>
      ValidateUserIdAsWritten(userId) && userId !in users && |Strip(name)| >= 2 && |password| >= 4
    ensures c == InvalidId <==> !ValidateUserIdAsWritten(userId)
    ensures c == Taken ==> userId in users
  {
    if !ValidateUserIdAsWritten(userId) then InvalidId
    else if userId in users then Taken
    else if |Strip(name)| < 2 then NameTooShort
    else if |password| < 4 then PasswordTooShort
    else Accepted
  }

  /** The same checks with the corrected id check. */
  function CheckRegistrationCorrected(users: map<string, Entry>, userId: string, name: string, password: string): (c: RegisterCheck)
    ensures c == Accepted <==>
      ValidateUserId(userId) && userId !in users && |Strip(name)| >= 2 && |password| >= 4
  {
    if !ValidateUserId(userId) then InvalidId else CheckRegistration(users, userId, name, password)
  }

  /** The corrected registration accepts exactly what the one as written
      accepts, except an id ending in a newline. */
  lemma RegistrationCorrected(users: map<string, Entry>, userId: string, name: string, password: string)
    ensures CheckRegistrationCorrected(users, userId, name, password) == Accepted
      <==> CheckRegistration(users, userId, name, password) == Accepted && (userId == [] || userId[|userId| - 1] != '\n')
  {
    ValidateUserIdCorrected(userId);
  }

  /** The message `register` returns beside its flag. */
  function RegisterMessage(c: RegisterCheck, saved: bool): string {
    match c
    case InvalidId => "用户ID格式无效（3-20位字母、数字或下划线）"
    case Taken => "该用户ID已被注册"
    case NameTooShort => "姓名至少2个字符"
    case PasswordTooShort => "密码至少4位"
    case Accepted => if saved then "注册成功！" else "保存失败，请重试"
  }

  /** The entry `register` stores: the `User` fields with the stripped
      name, no login yet and no resume versions, plus the password hash. */
  function NewEntry(userId: string, name: string, password: string, major: string, role: string,
                    now: string, hash: string -> string): Entry {
    Entry(Some(userId), Some(Strip(name)), Some(major), Some(role), Some(now), Some(""), Some(0), Some([]),
          Some(hash(password)))
  }

  /** The users after `register`: one new entry when the checks pass, none
      otherwise, whether or not the file is written. */
  function AfterRegister(users: map<string, Entry>, userId: string, name: string, password: string,
                         major: string, role: string, now: string, hash: string -> string): map<string, Entry> {
    if CheckRegistration(users, userId, name, password) == Accepted
    then users[userId := NewEntry(userId, name, password, major, role, now, hash)]
    else users
  }

  /** A registration adds exactly the new id, with its entry, and leaves
      every other entry alone; a rejected one changes nothing. */
  lemma RegisterEffect(users: map<string, Entry>, userId: string, name: string, password: string,
                       major: string, role: string, now: string, hash: string -> string)
    ensures var after := AfterRegister(users, userId, name, password, major, role, now, hash);
      && (CheckRegistration(users, userId, name, password) == Accepted ==>
            after.Keys == users.Keys + {userId} && |after| == |users| + 1
            && after[userId].name == Some(Strip(name)) && after[userId].loginCount == Some(0)
            && after[userId].resumeVersions == Some([]) && after[userId].passwordHash == Some(hash(password)))
      && (CheckRegistration(users, userId, name, password) != Accepted ==> after == users)
      && (forall k :: k in users ==> k in after && after[k] == users[k])
  {
    if CheckRegistration(users, userId, name, password) == Accepted {
      assert userId !in users.Keys;
    }
  }

  /** As written, registering the id `"abc\n"` succeeds and stores the
      user under that key; the corrected check rejects it. */
  lemma NewlineIdRegisters(major: string, role: string, now: string, hash: string -> string)
    ensures CheckRegistration(map[], "abc\n", "Alice", "pass") == Accepted
    ensures "abc\n" in AfterRegister(map[], "abc\n", "Alice", "pass", major, role, now, hash)
    ensures CheckRegistrationCorrected(map[], "abc\n", "Alice", "pass") == InvalidId
  {
    NewlineIdAccepted();
    StripFixed("Alice");
  }

  // -----------------------------------------------------------------------
  // Login

  /** The password hashes to the stored hash; a missing hash never
      matches. */
  predicate Authenticates(users: map<string, Entry>, userId: string, password: string, hash: string -> string) {
    userId in users && users[userId].passwordHash == Some(hash(password))
  }

  /** The entry after a successful login. */
  function LoggedInEntry(e: Entry, now: string): Entry {
    e.(lastLogin := Some(now), loginCount := Some(OrElse(e.loginCount, 0) + 1))
  }

  /** The users after `login`. */
  function AfterLogin(users: map<string, Entry>, userId: string, password: string, now: string,
                      hash: string -> string): map<string, Entry> {
    if Authenticates(users, userId, password, hash) then users[userId := LoggedInEntry(users[userId], now)]
    else users
  }

  /** What `login` returns: a failure message, a session with a message,
      or `LoginIncomplete` for the `KeyError` raised when the updated
      entry lacks `user_id` or `name`. */
  datatype LoginResult = LoginFailed(message: string) | LoggedIn(session: UserSession, message: string) | LoginIncomplete

  function LoginOutcome(users: map<string, Entry>, userId: string, password: string, now: string,
                        hash: string -> string): LoginResult {
    if userId !in users then LoginFailed("用户不存在")
    else if !Authenticates(users, userId, password, hash) then LoginFailed("密码错误")
    else
      match UserOf(LoggedInEntry(users[userId], now), now)
      case None => LoginIncomplete
      case Some(u) => LoggedIn(UserSession(u, now, true), "登录成功！")
  }

  /** A login with the right password counts exactly one more login and
      records the time, leaving every other user alone; any other login
      changes nothing. */
  lemma LoginEffect(users: map<string, Entry>, userId: string, password: string, now: string, hash: string -> string)
    ensures var after := AfterLogin(users, userId, password, now, hash);
      && after.Keys == users.Keys
      && (forall k :: k in users && k != userId ==> after[k] == users[k])
      && (Authenticates(users, userId, password, hash) ==>
            OrElse(after[userId].loginCount, 0) == OrElse(users[userId].loginCount, 0) + 1
            && after[userId].lastLogin == Some(now)
            && after[userId].passwordHash == users[userId].passwordHash
            && after[userId].resumeVersions == users[userId].resumeVersions)
      && (!Authenticates(users, userId, password, hash) ==> after == users)
  {
  }

  /** A session is opened exactly when the password is right and the entry
      is complete; the session's user is authenticated and carries the new
      login count. */
  lemma LoginSessionIff(users: map<string, Entry>, userId: string, password: string, now: string, hash: string -> string)
    ensures var r := LoginOutcome(users, userId, password, now, hash);
      && (r.LoggedIn? <==>
            Authenticates(users, userId, password, hash) && users[userId].userId.Some? && users[userId].name.Some?)
      && (r.LoggedIn? ==>
            r.session.isAuthenticated && r.session.user.lastLogin == now
            && r.session.user.loginCount == OrElse(users[userId].loginCount, 0) + 1)
  {
  }

  /** Registering and then logging in with the same password opens a
      session for the new user, with one login and no resume versions. */
  lemma RegisterThenLogin(users: map<string, Entry>, userId: string, name: string, password: string,
                          major: string, role: string, now: string, later: string, hash: string -> string)
    requires CheckRegistration(users, userId, name, password) == Accepted
    requires now != ""
    ensures LoginOutcome(AfterRegister(users, userId, name, password, major, role, now, hash), userId, password, later, hash)
      == LoggedIn(UserSession(User(userId, Strip(name), major, role, now, later, 1, []), later, true), "登录成功！")
  {
    var after := AfterRegister(users, userId, name, password, major, role, now, hash);
    assert after[userId] == NewEntry(userId, name, password, major, role, now, hash);
  }

  // -----------------------------------------------------------------------
  // Lookup

  /** What `get_user` returns: None for an unknown id, the user otherwise,
      or `Incomplete` for the `KeyError` of an entry without `user_id` or
      `name`. */
  datatype Fetched = NotRegistered | Found(user: User) | Incomplete

  function FetchUser(users: map<string, Entry>, userId: string, now: string): (r: Fetched)
    ensures r.NotRegistered? <==> userId !in users
    ensures r.Found? <==> userId in users && users[userId].userId.Some? && users[userId].name.Some?
    ensures r.Found? ==>
      var e := users[userId];
      && Some(r.user.userId) == e.userId && Some(r.user.name) == e.name
      && r.user.major == OrElse(e.major, "journalism") && r.user.role == OrElse(e.role, "student")
      && r.user.lastLogin == OrElse(e.lastLogin, "") && r.user.loginCount == OrElse(e.loginCount, 0)
      && r.user.resumeVersions == OrElse(e.resumeVersions, [])
      && r.user.createdAt == (if OrElse(e.createdAt, "") == "" then now else OrElse(e.createdAt, ""))
  {
    if userId !in users then NotRegistered
    else
      match UserOf(users[userId], now)
      case None => Incomplete
      case Some(u) => Found(u)
  }

  /** A stored entry that lacks its name is reported as incomplete (the
      `KeyError`), not as a user and not as unknown. */
  lemma NamelessEntryIncomplete(users: map<string, Entry>, userId: string, now: string)
    requires userId in users && users[userId].name.None?
    ensures FetchUser(users, userId, now) == Incomplete
  {
  }

  /** A user just registered is found with the registered name, major and
      role, no login and no resume versions. */
  lemma RegisterThenFetch(users: map<string, Entry>, userId: string, name: string, password: string,
                          major: string, role: string, now: string, later: string, hash: string -> string)
    requires CheckRegistration(users, userId, name, password) == Accepted
    requires now != ""
    ensures FetchUser(AfterRegister(users, userId, name, password, major, role, now, hash), userId, later)
      == Found(User(userId, Strip(name), major, role, now, "", 0, []))
  {
    var after := AfterRegister(users, userId, name, password, major, role, now, hash);
    assert after[userId] == NewEntry(userId, name, password, major, role, now, hash);
  }

  // -----------------------------------------------------------------------
  // Resume versions

  /** The entry after `update_user_resume_versions`: the version appended
      when it is not already listed. */
  function WithVersion(e: Entry, version: string): Entry {
    var versions := OrElse(e.resumeVersions, []);
    if version in versions then e else e.(resumeVersions := Some(versions + [version]))
  }

  /** The registry after `update_user_resume_versions`: the same users,
      only `userId`'s entry touched, and the version listed for it. */
  function AfterAddVersion(users: map<string, Entry>, userId: string, version: string): (r: map<string, Entry>)
    ensures r.Keys == users.Keys
    ensures forall k :: k in users && k != userId ==> r[k] == users[k]
    ensures userId in users ==> version in OrElse(r[userId].resumeVersions, [])
    ensures userId in users ==> (r == users <==> version in OrElse(users[userId].resumeVersions, []))
  {
    if userId in users then users[userId := WithVersion(users[userId], version)] else users
  }

  /** What `update_user_resume_versions` returns: false for an unknown
      user, true when the version was listed already, otherwise whether the
      file was written. */
  function AddVersionResult(users: map<string, Entry>, userId: string, version: string, saved: bool): (r: bool)
    ensures r ==> userId in users
    ensures saved ==> (r <==> userId in users)
    ensures !saved ==> (r <==> userId in users && AfterAddVersion(users, userId, version) == users)
  {
    userId in users && (version in OrElse(users[userId].resumeVersions, []) || saved)
  }

  /** After the update the version is listed once more at most: it is in
      the list, the list has no repeats when it had none before, and the
      earlier versions keep their order. */
  lemma AddVersionEffect(users: map<string, Entry>, userId: string, version: string)
    requires userId in users
    ensures var before := OrElse(users[userId].resumeVersions, []);
      var after := OrElse(AfterAddVersion(users, userId, version)[userId].resumeVersions, []);
      && version in after
      && after[..|before|] == before
      && |after| <= |before| + 1
      && (Distinct(before) ==> Distinct(after))
  {
    var before := OrElse(users[userId].resumeVersions, []);
    if version !in before {
      var after := before + [version];
      assert after[|before|] == version;
      assert after[..|before|] == before;
    }
  }

  /** Adding the same version twice is adding it once. */
  lemma AddVersionIdempotent(users: map<string, Entry>, userId: string, version: string)
    ensures AfterAddVersion(AfterAddVersion(users, userId, version), userId, version)
      == AfterAddVersion(users, userId, version)
  {
    if userId in users {
      var e := users[userId];
      var e1 := WithVersion(e, version);
      assert version in OrElse(e1.resumeVersions, []) by {
        var before := OrElse(e.resumeVersions, []);
        if version !in before {
          assert (before + [version])[|before|] == version;
        }
      }
      assert WithVersion(e1, version) == e1;
    }
  }

  // -----------------------------------------------------------------------
  // Listing and statistics

  /** A row of `get_all_users`; the default major here is "", unlike the
      "journalism" of `get_user` and `get_statistics`. */
  datatype UserRow = UserRow(
    userId: string, name: string, major: string, role: string, loginCount: int, lastLogin: string, resumeCount: nat)

  function RowOf(userId: string, e: Entry): UserRow {
    UserRow(userId, OrElse(e.name, ""), OrElse(e.major, ""), OrElse(e.role, "student"), OrElse(e.loginCount, 0),
            OrElse(e.lastLogin, ""), |OrElse(e.resumeVersions, [])|)
  }

  /** `get_all_users`: one row per user, in the dictionary's order. */
  function AllUsers(ids: seq<string>, users: map<string, Entry>): (rows: seq<UserRow>)
    requires forall k :: k in ids ==> k in users
    ensures |rows| == |ids|
    ensures forall i :: 0 <= i < |ids| ==> rows[i] == RowOf(ids[i], users[ids[i]])
  {
    if ids == [] then []
    else AllUsers(ids[..|ids| - 1], users) + [RowOf(ids[|ids| - 1], users[ids[|ids| - 1]])]
  }

  /** The number of resume versions the user lists. */
  function ResumeCount(users: map<string, Entry>, userId: string): nat
    requires userId in users
  {
    |OrElse(users[userId].resumeVersions, [])|
  }

  /** `total_resumes`: the sum of the users' list lengths. */
  function TotalResumes(ids: seq<string>, users: map<string, Entry>): nat
    requires forall k :: k in ids ==> k in users
  {
    if ids == [] then 0
    else TotalResumes(ids[..|ids| - 1], users) + ResumeCount(users, ids[|ids| - 1])
  }

  /** The sum of the rows' resume counts. */
  function RowResumes(rows: seq<UserRow>): nat {
    if rows == [] then 0 else RowResumes(rows[..|rows| - 1]) + rows[|rows| - 1].resumeCount
  }

  /** The statistics' resume total is the total of the listing's resume
      counts. */
  lemma {:induction false} TotalResumesOfRows(ids: seq<string>, users: map<string, Entry>)
    requires forall k :: k in ids ==> k in users
    ensures RowResumes(AllUsers(ids, users)) == TotalResumes(ids, users)
  {
    if ids != [] {
      var init := ids[..|ids| - 1];
      TotalResumesOfRows(init, users);
      var rows := AllUsers(ids, users);
      assert rows[..|rows| - 1] == AllUsers(init, users);
    }
  }

  /** `data.get("major", "journalism")`. */
  function MajorOf(e: Entry): string {
    OrElse(e.major, "journalism")
  }

  /** The users' majors, in the dictionary's order. */
  function Majors(ids: seq<string>, users: map<string, Entry>): (ms: seq<string>)
    requires forall k :: k in ids ==> k in users
    ensures |ms| == |ids|
  {
    if ids == [] then [] else Majors(ids[..|ids| - 1], users) + [MajorOf(users[ids[|ids| - 1]])]
  }

  /** `counts[k] = counts.get(k, 0) + 1` on a dictionary kept as pairs in
      insertion order. */
  function Bump(counts: seq<(string, nat)>, k: string): seq<(string, nat)> {
    if counts == [] then [(k, 1)]
    else if counts[0].0 == k then [(k, counts[0].1 + 1)] + counts[1..]
    else [counts[0]] + Bump(counts[1..], k)
  }

  /** `counts.get(k, 0)`. */
  function CountOf(counts: seq<(string, nat)>, k: string): nat {
    if counts == [] then 0 else if counts[0].0 == k then counts[0].1 else CountOf(counts[1..], k)
  }

  /** The sum of the counts. */
  function Total(counts: seq<(string, nat)>): nat {
    if counts == [] then 0 else counts[0].1 + Total(counts[1..])
  }

  function Keys(counts: seq<(string, nat)>): seq<string> {
    if counts == [] then [] else [counts[0].0] + Keys(counts[1..])
  }

  /** The counting loop of `get_statistics`, applied to the majors in
      order. */
  function Tally(ms: seq<string>): seq<(string, nat)> {
    if ms == [] then [] else Bump(Tally(ms[..|ms| - 1]), ms[|ms| - 1])
  }

  /** A bump adds one to the total and to the bumped key's count only. */
  lemma {:induction false} BumpCounts(counts: seq<(string, nat)>, k: string)
    ensures Total(Bump(counts, k)) == Total(counts) + 1
    ensures forall m :: CountOf(Bump(counts, k), m) == CountOf(counts, m) + (if m == k then 1 else 0)
  {
    if counts != [] && counts[0].0 != k {
      BumpCounts(counts[1..], k);
      assert Bump(counts, k)[1..] == Bump(counts[1..], k);
    } else if counts != [] {
      assert Bump(counts, k)[1..] == counts[1..];
    }
  }

  /** A bump adds the bumped key to the keys, and keeps them distinct. */
  lemma {:induction false} BumpKeys(counts: seq<(string, nat)>, k: string)
    ensures forall m :: m in Keys(Bump(counts, k)) <==> m in Keys(counts) || m == k
    ensures Distinct(Keys(counts)) ==> Distinct(Keys(Bump(counts, k)))
  {
    if counts == [] {
      assert Keys(Bump(counts, k)) == [k] + Keys([]);
    } else if counts[0].0 != k {
      var tail := Bump(counts[1..], k);
      BumpKeys(counts[1..], k);
      assert Bump(counts, k) == [counts[0]] + tail;
      assert Keys(Bump(counts, k)) == [counts[0].0] + Keys(tail);
      assert Keys(counts) == [counts[0].0] + Keys(counts[1..]);
      DistinctCons(counts[0].0, Keys(counts[1..]));
      DistinctCons(counts[0].0, Keys(tail));
    } else {
      assert Bump(counts, k) == [(k, counts[0].1 + 1)] + counts[1..];
      assert Keys(Bump(counts, k)) == [k] + Keys(counts[1..]);
      assert Keys(counts) == [k] + Keys(counts[1..]);
    }
  }

  /** An element in front of a sequence: no repeats exactly when the
      sequence has none and does not hold the element. */
  lemma DistinctCons(x: string, xs: seq<string>)
    ensures Distinct([x] + xs) <==> Distinct(xs) && x !in xs
  {
    var s := [x] + xs;
    if Distinct(xs) && x !in xs {
      forall a, b | 0 <= a < b < |s| ensures s[a] != s[b] {
        assert s[b] == xs[b - 1];
        if a > 0 { assert s[a] == xs[a - 1]; }
      }
    }
    if Distinct(s) {
      forall a, b | 0 <= a < b < |xs| ensures xs[a] != xs[b] {
        assert xs[a] == s[a + 1] && xs[b] == s[b + 1];
      }
      forall b | 0 <= b < |xs| ensures xs[b] != x {
        assert s[0] == x && xs[b] == s[b + 1];
      }
    }
  }

  /** The distribution counts every major: its counts sum to the number of
      users, each major's count is its number of occurrences, and each
      major is listed once. */
  lemma {:induction false} TallyCounts(ms: seq<string>)
    ensures Total(Tally(ms)) == |ms|
    ensures forall m :: CountOf(Tally(ms), m) == multiset(ms)[m]
    ensures Distinct(Keys(Tally(ms)))
    ensures forall m :: m in Keys(Tally(ms)) <==> m in ms
  {
    if ms != [] {
      var init := ms[..|ms| - 1];
      TallyCounts(init);
      BumpCounts(Tally(init), ms[|ms| - 1]);
      BumpKeys(Tally(init), ms[|ms| - 1]);
      assert ms == init + [ms[|ms| - 1]];
      assert multiset(ms) == multiset(init) + multiset{ms[|ms| - 1]};
    }
  }

  /** `get_statistics`' count of users whose last login starts with
      today's date. */
  function ActiveToday(ids: seq<string>, users: map<string, Entry>, today: string): (n: nat)
    requires forall k :: k in ids ==> k in users
    ensures n <= |ids|
  {
    if ids == [] then 0
    else
      ActiveToday(ids[..|ids| - 1], users, today)
        + (if HasPrefix(OrElse(users[ids[|ids| - 1]].lastLogin, ""), today) then 1 else 0)
  }

  /** What `get_statistics` returns. */
  datatype Statistics = Statistics(
    totalUsers: nat, totalResumes: nat, majorDistribution: seq<(string, nat)>, activeToday: nat)

  // -----------------------------------------------------------------------
  // The manager

  class UserManager {
    /** The keys of `_users` in insertion order. */
    var ids: seq<string>
    /** `_users`. */
    var users: map<string, Entry>

    ghost predicate Valid()
      reads this
    {
      Registry(ids, users)
    }

    /** `__init__` with `_load_users`: the stored users when the file
        exists and parses, no users otherwise. */
    constructor (loaded: Option<(seq<string>, map<string, Entry>)>)
      requires loaded.Some? ==> Registry(loaded.value.0, loaded.value.1)
      ensures Valid()
      ensures loaded.Some? ==> ids == loaded.value.0 && users == loaded.value.1
      ensures loaded.None? ==> ids == [] && users == map[]
    {
      if loaded.Some? {
        ids := loaded.value.0;
        users := loaded.value.1;
      } else {
        ids := [];
        users := map[];
      }
    }

    /** `register`: checks the id, its novelty, the stripped name and the
        password in this order; on success stores the new entry (kept in
        memory even when the file cannot be written) and reports whether
        the file was written. */
    method Register(userId: string, name: string, password: string, major: string, role: string,
                    now: string, hash: string -> string, saved: bool)
      returns (ok: bool, message: string)
      requires Valid()
      modifies this
      ensures Valid()
      ensures var c := CheckRegistration(old(users), userId, name, password);
        && ok == (c == Accepted && saved)
        && message == RegisterMessage(c, saved)
        && users == AfterRegister(old(users), userId, name, password, major, role, now, hash)
        && ids == (if c == Accepted then old(ids) + [userId] else old(ids))
    {
      if !ValidateUserIdAsWritten(userId) {
        return false, "用户ID格式无效（3-20位字母、数字或下划线）";
      }
      if userId in users {
        return false, "该用户ID已被注册";
      }
      var stripped := Strip(name);
      if |stripped| < 2 {
        return false, "姓名至少2个字符";
      }
      if |password| < 4 {
        return false, "密码至少4位";
      }
      users := users[userId := NewEntry(userId, name, password, major, role, now, hash)];
      ids := ids + [userId];
      if saved {
        return true, "注册成功！";
      } else {
        return false, "保存失败，请重试";
      }
    }

    /** `login`: an unknown id or a wrong password fails and changes
        nothing; otherwise the entry's login time and count are updated
        before the session is built. */
    method Login(userId: string, password: string, now: string, hash: string -> string)
      returns (r: LoginResult)
      requires Valid()
      modifies this
      ensures Valid() && ids == old(ids)
      ensures users == AfterLogin(old(users), userId, password, now, hash)
      ensures r == LoginOutcome(old(users), userId, password, now, hash)
    {
      if userId !in users {
        return LoginFailed("用户不存在");
      }
      var data := users[userId];
      if data.passwordHash != Some(hash(password)) {
        return LoginFailed("密码错误");
      }
      data := data.(lastLogin := Some(now));
      data := data.(loginCount := Some(OrElse(data.loginCount, 0) + 1));
      users := users[userId := data];
      if data.userId.None? || data.name.None? {
        return LoginIncomplete;
      }
      var created := OrElse(data.createdAt, "");
      var user := User(data.userId.value, data.name.value, OrElse(data.major, "journalism"), OrElse(data.role, "student"),
                       if created == "" then now else created, OrElse(data.lastLogin, ""),
                       OrElse(data.loginCount, 0), OrElse(data.resumeVersions, []));
      return LoggedIn(UserSession(user, now, true), "登录成功！");
    }

    /** `get_user`. */
    function GetUser(userId: string, now: string): (r: Fetched)
      reads this
      ensures r.NotRegistered? <==> userId !in users
      ensures r.Found? <==> userId in users && users[userId].userId.Some? && users[userId].name.Some?
    {
      FetchUser(users, userId, now)
    }

    /** `update_user_resume_versions`: false for an unknown user; appends
        the version when it is not listed yet, then reports whether the
        file was written; true when it was listed already. */
    method UpdateResumeVersions(userId: string, version: string, saved: bool) returns (ok: bool)
      requires Valid()
      modifies this
      ensures Valid() && ids == old(ids)
      ensures users == AfterAddVersion(old(users), userId, version)
      ensures ok == AddVersionResult(old(users), userId, version, saved)
    {
      if userId !in users {
        return false;
      }
      var versions := OrElse(users[userId].resumeVersions, []);
      if version !in versions {
        versions := versions + [version];
        users := users[userId := users[userId].(resumeVersions := Some(versions))];
        return saved;
      }
      return true;
    }

    /** `get_all_users`: one row per user, in the dictionary's order. */
    function GetAllUsers(): (rows: seq<UserRow>)
      reads this
      requires Valid()
      ensures |rows| == |ids| == |users|
      ensures forall i :: 0 <= i < |rows| ==>
        ids[i] in users && rows[i] == RowOf(ids[i], users[ids[i]])
        && rows[i].userId == ids[i] && rows[i].resumeCount == ResumeCount(users, ids[i])
    {
      RegistrySize(ids, users);
      AllUsers(ids, users)
    }

    /** `get_statistics`: the number of users, their resume versions, the
        distribution of majors and the users active today. */
    method GetStatistics(today: string) returns (stats: Statistics)
      requires Valid()
      ensures stats.totalUsers == |users|
      ensures stats.totalResumes == TotalResumes(ids, users)
      ensures stats.activeToday == ActiveToday(ids, users, today)
      ensures Total(stats.majorDistribution) == stats.totalUsers
      ensures Distinct(Keys(stats.majorDistribution))
      ensures forall m :: CountOf(stats.majorDistribution, m) == multiset(Majors(ids, users))[m]
      ensures stats.majorDistribution == Tally(Majors(ids, users))
    {
      RegistrySize(ids, users);
      var totalUsers := |users|;
      var totalResumes := TotalResumes(ids, users);
      var majorCounts := [];
      for j := 0 to |ids|
        invariant majorCounts == Tally(Majors(ids[..j], users))
      {
        assert ids[..j + 1][..j] == ids[..j];
        var major := OrElse(users[ids[j]].major, "journalism");
        majorCounts := Bump(majorCounts, major);
      }
      assert ids[..|ids|] == ids;
      TallyCounts(Majors(ids, users));
      var activeToday := ActiveToday(ids, users, today);
      stats := Statistics(totalUsers, totalResumes, majorCounts, activeToday);
    }
  }
}

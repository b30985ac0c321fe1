/**
 * The user registry and request-quota state machine of 1.1laba.c: a table
 * of at most MAX_USERS users with distinct alphanumeric logins, the user
 * currently logged in, and each user's request limit and request count.
 * The values the program reads with `scanf`/`fgets` are parameters here.
 */
module Registry {
  import opened Common

  const MAX_LOGIN: nat := 6
  /** The most characters `scanf("%5s")` keeps of the confirmation word. */
  const MAX_CONFIRMATION: nat := 5
  const MAX_USERS: nat := 100
  const PIN_MAX: int := 100000
  /** `request_limit` of a user without sanctions. */
  const UNLIMITED: int := -1
  /** The word `set_sanctions` asks for before it changes a limit. */
  const CONFIRMATION: string := "12345"

  /** One row of `users[]`. */
  datatype User = User(login: string, pin: int, limit: int, count: int)

  datatype RegisterOutcome = Registered | TableFull | InvalidLogin | LoginTaken | PinOutOfRange
  datatype AuthOutcome = Welcome | WrongPin | UnknownLogin
  datatype SanctionOutcome = LimitSet | NegativeNumber | NotConfirmed | NoSuchUser
  datatype GateOutcome = Admitted | Refused | NotLoggedIn

  /** `isalnum` in the C locale. */
  predicate IsAlnum(c: char)
  {
    'a' <= c <= 'z' || 'A' <= c <= 'Z' || '0' <= c <= '9'
  }

  predicate AllAlnum(s: string)
  {
    forall i :: 0 <= i < |s| ==> IsAlnum(s[i])
  }

  /** `valid_login`: 1 iff every character before the terminator is alphanumeric. */
  method ValidLogin(login: string) returns (ok: bool)
    ensures ok <==> AllAlnum(login)
    ensures login == "" ==> ok
  {
    for i := 0 to |login|
      invariant AllAlnum(login[..i])
    {
      if !IsAlnum(login[i]) {
        return false;
      }
      assert login[..i + 1] == login[..i] + [login[i]];
    }
    assert login[..|login|] == login;
    return true;
  }

  /** The first row whose login is `login`. */
  function Lookup(table: seq<User>, login: string): (r: Option<nat>)
    ensures r.Some? ==> r.value < |table| && table[r.value].login == login
    ensures r.Some? ==> forall i :: 0 <= i < r.value ==> table[i].login != login
    ensures r.None? <==> forall i :: 0 <= i < |table| ==> table[i].login != login
  {
    if |table| == 0 then None
    else if table[0].login == login then Some(0)
    else match Lookup(table[1..], login)
      case None => None
      case Some(i) => Some(i + 1)
  }

  /** No two rows share a login. */
  predicate DistinctLogins(table: seq<User>)
  {
    forall i, j :: 0 <= i < j < |table| ==> table[i].login != table[j].login
  }

  /** With distinct logins the row Lookup finds is the only one with that login. */
  lemma LookupUnique(table: seq<User>, login: string, i: nat)
    requires DistinctLogins(table) && i < |table| && table[i].login == login
    ensures Lookup(table, login) == Some(i)
  {
  }

  /** The checks of `registration`, in the order the source makes them. */
  function Registration(table: seq<User>, login: string, pin: int): (r: RegisterOutcome)
    ensures r == TableFull <==> |table| >= MAX_USERS
    ensures r == InvalidLogin ==> !AllAlnum(login)
    ensures r == LoginTaken ==> exists i :: 0 <= i < |table| && table[i].login == login
    ensures r == PinOutOfRange ==> pin < 0 || pin > PIN_MAX
  {
    if |table| >= MAX_USERS then TableFull
    else if !AllAlnum(login) then InvalidLogin
    else if Lookup(table, login).Some? then LoginTaken
    else if pin < 0 || pin > PIN_MAX then PinOutOfRange
    else Registered
  }

  /** Registration succeeds exactly when there is room, the login is valid and new, and the pin is in range. */
  lemma RegistrationAccepts(table: seq<User>, login: string, pin: int)
    ensures Registration(table, login, pin) == Registered <==>
      |table| < MAX_USERS && AllAlnum(login) && 0 <= pin <= PIN_MAX &&
      forall i :: 0 <= i < |table| ==> table[i].login != login
  {
  }

  /** An accepted registration keeps the logins distinct and the table within MAX_USERS rows. */
  lemma RegistrationKeepsDistinct(table: seq<User>, login: string, pin: int)
    requires DistinctLogins(table) && Registration(table, login, pin) == Registered
    ensures DistinctLogins(table + [User(login, pin, UNLIMITED, 0)])
    ensures |table + [User(login, pin, UNLIMITED, 0)]| <= MAX_USERS
  {
    var t := table + [User(login, pin, UNLIMITED, 0)];
    forall i, j | 0 <= i < j < |t|
      ensures t[i].login != t[j].login
    {
      if j == |table| {
        assert t[i] == table[i];
      } else {
        assert t[i] == table[i] && t[j] == table[j];
      }
    }
  }

  /** The gate of 1.1laba.c:288-289 and 383-384: an unlimited user, or one below the limit. */
  predicate Admits(u: User): (ok: bool)
    ensures u.limit == UNLIMITED ==> ok
    ensures ok && u.limit != UNLIMITED ==> u.count + 1 <= u.limit
  {
    u.limit == UNLIMITED || u.count < u.limit
  }

  /**
   * Of `attempts` commands in a row, how many the gate admits before it
   * refuses one: the reference for repeated `Gate` calls by one user, in
   * whose terms LimitedRun and UnlimitedRun are stated.
   */
  function AdmittedRun(u: User, attempts: nat): (r: nat)
    ensures r <= attempts
    ensures r > 0 <==> attempts > 0 && Admits(u)
    decreases attempts
  {
    if attempts == 0 || !Admits(u) then 0
    else 1 + AdmittedRun(u.(count := u.count + 1), attempts - 1)
  }

  /** A user limited to L requests with c already made gets exactly max(0, L - c) more, however many they try. */
  lemma {:induction false} LimitedRun(u: User, attempts: nat)
    requires u.limit >= 0
    ensures AdmittedRun(u, attempts) == Min(attempts, if u.limit - u.count > 0 then u.limit - u.count else 0)
    decreases attempts
  {
    if attempts > 0 && Admits(u) {
      LimitedRun(u.(count := u.count + 1), attempts - 1);
    }
  }

  /** An unlimited user is never refused. */
  lemma {:induction false} UnlimitedRun(u: User, attempts: nat)
    requires u.limit == UNLIMITED
    ensures AdmittedRun(u, attempts) == attempts
    decreases attempts
  {
    if attempts > 0 {
      UnlimitedRun(u.(count := u.count + 1), attempts - 1);
    }
  }

  /** The `struct tm` fields `howmuch` fills in from a checked date. */
  datatype Tm = Tm(mday: int, mon: int, year: int)

  /**
   * The date check of `howmuch` (1.1laba.c:194-201): out-of-range values are
   * refused before any time computation; an accepted date becomes `struct
   * tm` fields with `tm_mon` counted from 0 and `tm_year` from 1900.
   */
  function HowmuchDate(day: int, month: int, year: int): (r: Option<Tm>)
    ensures r.Some? <==> 1 <= day <= 31 && 1 <= month <= 12 && year >= 1900
    ensures r.Some? ==> 1 <= r.value.mday <= 31 && 0 <= r.value.mon <= 11 && r.value.year >= 0
    ensures r.Some? ==> r.value.mday == day && r.value.mon + 1 == month && r.value.year + 1900 == year
  {
    if day < 1 || day > 31 || month < 1 || month > 12 || year < 1900 then None
    else Some(Tm(day, month - 1, year - 1900))
  }

  /** The `Current` struct. */
  class Current {
    const users: array<User>
    var userCount: nat
    /** Index of the logged-in user in `users`, or None for a null `current_user`. */
    var current: Option<nat>

    ghost predicate Valid()
      reads this, users
    {
      users.Length == MAX_USERS && userCount <= MAX_USERS &&
      DistinctLogins(users[..userCount]) &&
      (forall i :: 0 <= i < userCount ==> users[i].limit >= UNLIMITED && users[i].count >= 0) &&
      (current.Some? ==> current.value < userCount)
    }

    /** The registered users, `users[0 .. user_count)`. */
    function Table(): seq<User>
      reads this, users
      requires userCount <= users.Length
    {
      users[..userCount]
    }

    /** `Current state = {0}`: an empty table and nobody logged in. */
    constructor ()
      ensures Valid() && Table() == [] && current == None
    {
      users := new User[MAX_USERS](_ => User("", 0, 0, 0));
      userCount := 0;
      current := None;
    }

    /** The search loop over `users[0 .. user_count)` with `strcmp`. */
    method IndexOf(login: string) returns (idx: Option<nat>)
      requires Valid()
      ensures idx == Lookup(Table(), login)
    {
      var i := 0;
      while i < userCount
        invariant i <= userCount
        invariant forall j :: 0 <= j < i ==> users[j].login != login
      {
        if users[i].login == login {
          LookupUnique(Table(), login, i);
          return Some(i);
        }
        i := i + 1;
      }
      return None;
    }

    /** `registration` (1.1laba.c:46-103). */
    method Register(login: string, pin: int) returns (outcome: RegisterOutcome)
      requires Valid() && 1 <= |login| <= MAX_LOGIN
      modifies this, users
      ensures Valid() && current == old(current)
      ensures outcome == Registration(old(Table()), login, pin)
      ensures outcome == Registered ==> Table() == old(Table()) + [User(login, pin, UNLIMITED, 0)]
      ensures outcome != Registered ==> Table() == old(Table())
    {
      if userCount >= MAX_USERS {
        return TableFull;
      }
      var ok := ValidLogin(login);
      if !ok {
        return InvalidLogin;
      }
      var existing := IndexOf(login);
      if existing.Some? {
        return LoginTaken;
      }
      if pin < 0 || pin > PIN_MAX {
        return PinOutOfRange;
      }
      ghost var before := Table();
      RegistrationKeepsDistinct(before, login, pin);
      users[userCount] := User(login, pin, UNLIMITED, 0);
      userCount := userCount + 1;
      assert Table() == before + [User(login, pin, UNLIMITED, 0)];
      outcome := Registered;
    }

    /** `authorization` (1.1laba.c:105-146): log in only with the matching pin. */
    method Authorize(login: string, pin: int) returns (outcome: AuthOutcome)
      requires Valid()
      modifies this
      ensures Valid() && userCount == old(userCount)
      ensures Lookup(Table(), login).None? ==> outcome == UnknownLogin && current == old(current)
      ensures Lookup(Table(), login).Some? ==>
        var i := Lookup(Table(), login).value;
        if users[i].pin == pin then outcome == Welcome && current == Some(i)
        else outcome == WrongPin && current == old(current)
    {
      var idx := IndexOf(login);
      match idx
      case None =>
        outcome := UnknownLogin;
      case Some(i) =>
        if users[i].pin == pin {
          current := Some(i);
          outcome := Welcome;
        } else {
          outcome := WrongPin;
        }
    }

    /** `logout` (1.1laba.c:148-151). */
    method Logout()
      requires Valid()
      modifies this
      ensures Valid() && current == None && userCount == old(userCount)
    {
      current := None;
    }

    /**
     * `set_sanctions` (1.1laba.c:230-267): a non-negative limit, confirmed
     * with CONFIRMATION, is set on the user with that login and on no one else.
     */
    method SetSanctions(username: string, number: int, confirmation: string) returns (outcome: SanctionOutcome)
      requires Valid() && 1 <= |confirmation| <= MAX_CONFIRMATION
      modifies users
      ensures Valid()
      ensures number < 0 ==> outcome == NegativeNumber && Table() == old(Table())
      ensures number >= 0 && confirmation != CONFIRMATION ==> outcome == NotConfirmed && Table() == old(Table())
      ensures number >= 0 && confirmation == CONFIRMATION ==>
        match Lookup(old(Table()), username)
        case None => outcome == NoSuchUser && Table() == old(Table())
        case Some(i) => outcome == LimitSet && Table() == old(Table())[i := old(Table())[i].(limit := number)]
    {
      if number < 0 {
        return NegativeNumber;
      }
      if confirmation != CONFIRMATION {
        return NotConfirmed;
      }
      var idx := IndexOf(username);
      match idx
      case None =>
        outcome := NoSuchUser;
      case Some(i) =>
        ghost var before := Table();
        users[i] := users[i].(limit := number);
        assert Table() == before[i := before[i].(limit := number)];
        outcome := LimitSet;
    }

    /**
     * The quota gate (1.1laba.c:279-298, 383-389): nobody logged in is
     * turned away; a user within the limit is admitted and the request is
     * counted; a user at the limit is logged out instead.
     */
    method Gate() returns (g: GateOutcome)
      requires Valid()
      modifies this, users
      ensures Valid() && userCount == old(userCount)
      ensures old(current).None? ==> g == NotLoggedIn && current == None && Table() == old(Table())
      ensures old(current).Some? ==>
        var i := old(current).value;
        var u := old(Table())[i];
        if Admits(u) then
          g == Admitted && current == old(current) && Table() == old(Table())[i := u.(count := u.count + 1)]
        else
          g == Refused && current == None && Table() == old(Table())
      ensures g == Admitted ==>
        current.Some? && (users[current.value].limit != UNLIMITED ==> users[current.value].count <= users[current.value].limit)
    {
      match current
      case None =>
        g := NotLoggedIn;
      case Some(i) =>
        var u := users[i];
        if u.limit != UNLIMITED && u.count >= u.limit {
          current := None;
          g := Refused;
        } else {
          ghost var before := Table();
          users[i] := u.(count := u.count + 1);
          assert Table() == before[i := u.(count := u.count + 1)];
          g := Admitted;
        }
    }
  }
}

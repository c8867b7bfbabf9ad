/**
 * The in-memory ledger of the backend: a `users` map keyed by username and a
 * `bets` map keyed by bet id, the register, login, profile, place-bet,
 * list-bets and leaderboard handlers, with the HTTP layer stripped away.
 *
 * Money is integer cents (the $10.00 starting wallet is 1000). Both maps are
 * JavaScript `Map`s: they iterate in insertion order and every value is
 * stored under its own `username` (users) or `id` (bets). Each is modelled as
 * the sequence of its values in insertion order, with distinct keys.
 */
module Ledger {
  import opened Wrappers

  type Id = string

  /** A stored user; `createdAt` is not modelled. */
  datatype User = User(id: Id, username: string, passwordHash: string, wallet: int)

  /** The public projection of a user sent back to clients. */
  datatype PublicUser = PublicUser(id: Id, username: string, wallet: int)

  /** A bet record; `timestamp` is not modelled. */
  datatype Bet = Bet(id: Id, userId: Id, questionId: string, selectedOption: int, cost: int)

  /** The body of a successful place-bet response. */
  datatype Receipt = Receipt(bet: Bet, newWalletBalance: int)

  /** The handlers' error responses. */
  datatype Error =
    | CredentialsRequired   // 400 "Username and password required"
    | UsernameExists        // 400 "Username already exists"
    | InvalidCredentials    // 401 "Invalid credentials"
    | UserNotFound          // 404 "User not found"
    | InsufficientFunds     // 400 "Insufficient funds"

  datatype Result<T> = Ok(value: T) | Err(error: Error)

  /** Every new account starts with $10.00. */
  const StartingWallet: int := 1000

  /** JavaScript truthiness of a request string field: present and not empty. */
  predicate Present(field: Option<string>)
  {
    field.Some? && field.value != ""
  }

  function Public(u: User): PublicUser
  {
    PublicUser(u.id, u.username, u.wallet)
  }

  // ---------------------------------------------------------------------
  // Read-only handlers: find / filter / map / sort over the maps' values
  // ---------------------------------------------------------------------

  /** `users.find(u => u.id === id)`: the first user with that id, if any. */
  function FindById(us: seq<User>, id: Id): (r: Option<User>)
    ensures r.None? <==> forall u <- us :: u.id != id
    ensures r.Some? ==> r.value in us && r.value.id == id
  {
    if us == [] then None
    else if us[0].id == id then Some(us[0])
    else FindById(us[1..], id)
  }

  /** `find` returns the first match: the user at the first index carrying the id. */
  lemma {:induction false} FindByIdFirst(us: seq<User>, id: Id, i: nat)
    requires i < |us| && us[i].id == id
    requires forall j :: 0 <= j < i ==> us[j].id != id
    ensures FindById(us, id) == Some(us[i])
  {
    if i > 0 {
      assert us[0].id != id;
      FindByIdFirst(us[1..], id, i - 1);
    }
  }

  /** The profile handler: the public fields of the user with the caller's id. */
  function Profile(us: seq<User>, id: Id): (r: Result<PublicUser>)
    ensures r.Err? <==> forall u <- us :: u.id != id
    ensures r.Err? ==> r.error == UserNotFound
    ensures r.Ok? ==> r.value.id == id && exists u <- us :: u.id == id && r.value == Public(u)
  {
    match FindById(us, id)
    case None => Err(UserNotFound)
    case Some(u) => Ok(Public(u))
  }

  /** No two users share a username: they are the keys of the `users` map. */
  predicate UniqueNames(us: seq<User>)
  {
    forall i, j :: 0 <= i < j < |us| ==> us[i].username != us[j].username
  }

  /** `users.get(username)`: the user stored under that username, if any. */
  function FindByName(us: seq<User>, name: string): (r: Option<User>)
    ensures r.None? <==> forall u <- us :: u.username != name
    ensures r.Some? ==> r.value in us && r.value.username == name
  {
    if us == [] then None
    else if us[0].username == name then Some(us[0])
    else FindByName(us[1..], name)
  }

  /**
   * The login handler. `matches` stands for `bcrypt.compare(password, hash)`;
   * issuing the token is not modelled.
   */
  function Login(us: seq<User>, username: Option<string>, password: Option<string>,
                 matches: (string, string) -> bool): (r: Result<PublicUser>)
    requires UniqueNames(us)
    ensures !(Present(username) && Present(password)) ==> r == Err(CredentialsRequired)
    ensures Present(username) && Present(password) ==>
      (r.Ok? <==> exists u <- us :: u.username == username.value && matches(password.value, u.passwordHash))
    ensures r.Ok? ==> exists u <- us :: u.username == username.value && r.value == Public(u)
    ensures Present(username) && Present(password) && r.Err? ==> r.error == InvalidCredentials
  {
    if !(Present(username) && Present(password)) then Err(CredentialsRequired)
    else match FindByName(us, username.value)
      case None => Err(InvalidCredentials)
      case Some(user) =>
        assert forall u <- us :: u.username == username.value ==> u == user by {
          forall u <- us | u.username == username.value ensures u == user {
            var i :| 0 <= i < |us| && us[i] == u;
            var j :| 0 <= j < |us| && us[j] == user;
            assert i == j;
          }
        }
        if !matches(password.value, user.passwordHash) then Err(InvalidCredentials)
        else Ok(Public(user))
  }

  /** The list-bets handler: `bets.filter(bet => bet.userId === userId)`. */
  function ListBets(bs: seq<Bet>, userId: Id): (r: seq<Bet>)
    ensures |r| <= |bs|
    ensures forall b :: b in r <==> b in bs && b.userId == userId
  {
    if bs == [] then []
    else if bs[0].userId == userId then [bs[0]] + ListBets(bs[1..], userId)
    else ListBets(bs[1..], userId)
  }

  /** Filtering keeps insertion order: it distributes over concatenation. */
  lemma {:induction false} ListBetsAppend(a: seq<Bet>, b: seq<Bet>, userId: Id)
    ensures ListBets(a + b, userId) == ListBets(a, userId) + ListBets(b, userId)
  {
    if a == [] {
      assert a + b == b;
    } else {
      assert (a + b)[1..] == a[1..] + b;
      ListBetsAppend(a[1..], b, userId);
    }
  }

  /** A newly recorded bet appears last in its owner's list and in no other list. */
  lemma ListBetsAfterBet(bs: seq<Bet>, bet: Bet, userId: Id)
    ensures ListBets(bs + [bet], userId) ==
            ListBets(bs, userId) + (if bet.userId == userId then [bet] else [])
  {
    ListBetsAppend(bs, [bet], userId);
    assert [bet][1..] == [];
  }

  // ---------------------------------------------------------------------
  // Leaderboard: map to public fields, then a stable sort on descending wallet
  // ---------------------------------------------------------------------

  function Project(us: seq<User>): (r: seq<PublicUser>)
    ensures |r| == |us|
    ensures forall i :: 0 <= i < |us| ==> r[i] == Public(us[i])
  {
    seq(|us|, i requires 0 <= i < |us| => Public(us[i]))
  }

  predicate NonIncreasing(s: seq<PublicUser>)
  {
    forall i, j :: 0 <= i < j < |s| ==> s[i].wallet >= s[j].wallet
  }

  /** The entries holding exactly `w` cents, in order; equal filters for every `w` is stability. */
  function WithWallet(s: seq<PublicUser>, w: int): seq<PublicUser>
  {
    if s == [] then []
    else (if s[0].wallet == w then [s[0]] else []) + WithWallet(s[1..], w)
  }

  /** Inserts `x` before the first entry whose wallet is not larger. */
  function InsertByWallet(x: PublicUser, t: seq<PublicUser>): (r: seq<PublicUser>)
    ensures multiset(r) == multiset(t) + multiset{x}
  {
    if t == [] || t[0].wallet <= x.wallet then [x] + t
    else
      assert t == [t[0]] + t[1..];
      [t[0]] + InsertByWallet(x, t[1..])
  }

  /** Inserting `x` puts it ahead of every entry with the same wallet; entries with the same wallet keep their relative order. */
  lemma {:induction false} InsertWithWallet(x: PublicUser, t: seq<PublicUser>, w: int)
    ensures WithWallet(InsertByWallet(x, t), w) == (if x.wallet == w then [x] else []) + WithWallet(t, w)
  {
    if t == [] || t[0].wallet <= x.wallet {
      assert ([x] + t)[1..] == t;
    } else {
      var rest := InsertByWallet(x, t[1..]);
      InsertWithWallet(x, t[1..], w);
      assert ([t[0]] + rest)[1..] == rest;
    }
  }

  lemma {:induction false} InsertSorted(x: PublicUser, t: seq<PublicUser>)
    requires NonIncreasing(t)
    ensures NonIncreasing(InsertByWallet(x, t))
  {
    if t == [] || t[0].wallet <= x.wallet {
      forall y | y in t ensures y.wallet <= x.wallet {
        var k :| 0 <= k < |t| && t[k] == y;
        assert t[0].wallet >= t[k].wallet;
      }
      ConsSorted(x, t);
    } else {
      var rest := InsertByWallet(x, t[1..]);
      NonIncreasingTail(t);
      InsertSorted(x, t[1..]);
      forall y | y in rest ensures y.wallet <= t[0].wallet {
        assert y in multiset(t[1..]) + multiset{x};
        if y != x {
          var k :| 0 <= k < |t[1..]| && t[1..][k] == y;
          assert t[k + 1] == y;
        }
      }
      ConsSorted(t[0], rest);
    }
  }

  /** A head no smaller than anything in a sorted tail keeps the sequence sorted. */
  lemma ConsSorted(h: PublicUser, t: seq<PublicUser>)
    requires NonIncreasing(t)
    requires forall y <- t :: y.wallet <= h.wallet
    ensures NonIncreasing([h] + t)
  {
    var r := [h] + t;
    forall i, j | 0 <= i < j < |r| ensures r[i].wallet >= r[j].wallet {
      assert r[j] == t[j - 1];
      if i > 0 { assert r[i] == t[i - 1]; }
    }
  }

  /** Insertion sort on descending wallet, stable. */
  function SortByWallet(s: seq<PublicUser>): (r: seq<PublicUser>)
    ensures NonIncreasing(r)
    ensures multiset(r) == multiset(s)
    ensures forall w :: WithWallet(r, w) == WithWallet(s, w)
  {
    if s == [] then []
    else
      assert s == [s[0]] + s[1..];
      var rest := SortByWallet(s[1..]);
      InsertSorted(s[0], rest);
      forall w ensures WithWallet(InsertByWallet(s[0], rest), w) == WithWallet(s, w) {
        InsertWithWallet(s[0], rest, w);
        assert WithWallet(s, w) == (if s[0].wallet == w then [s[0]] else []) + WithWallet(s[1..], w);
      }
      InsertByWallet(s[0], rest)
  }

  /**
   * The leaderboard handler: every user projected to public fields, sorted by
   * non-increasing wallet; users with equal wallets keep insertion order.
   */
  function Leaderboard(us: seq<User>): (r: seq<PublicUser>)
    ensures NonIncreasing(r)
    ensures multiset(r) == multiset(Project(us))
    ensures forall w :: WithWallet(r, w) == WithWallet(Project(us), w)
  {
    SortByWallet(Project(us))
  }

  /** The three leaderboard properties determine the result: at most one sequence has them. */
  lemma {:induction false} StableOrderUnique(a: seq<PublicUser>, b: seq<PublicUser>)
    requires NonIncreasing(a) && NonIncreasing(b)
    requires forall w :: WithWallet(a, w) == WithWallet(b, w)
    ensures a == b
    decreases |a| + |b|
  {
    if a == [] && b == [] {
    } else if a == [] {
      WithWalletHead(b);
      assert false;
    } else if b == [] {
      WithWalletHead(a);
      assert false;
    } else {
      WithWalletHead(a);
      WithWalletHead(b);
      WithWalletBound(a, b[0].wallet);
      WithWalletBound(b, a[0].wallet);
      var m := a[0].wallet;
      assert m == b[0].wallet;
      assert WithWallet(a, m) == [a[0]] + WithWallet(a[1..], m);
      assert WithWallet(b, m) == [b[0]] + WithWallet(b[1..], m);
      assert a[0] == b[0];
      forall w ensures WithWallet(a[1..], w) == WithWallet(b[1..], w) {
        WithWalletTail(a, w);
        WithWalletTail(b, w);
      }
      NonIncreasingTail(a);
      NonIncreasingTail(b);
      StableOrderUnique(a[1..], b[1..]);
      assert a == [a[0]] + a[1..] && b == [b[0]] + b[1..];
    }
  }

  /** Dropping the head drops it from its own wallet's filter and from no other. */
  lemma WithWalletTail(s: seq<PublicUser>, w: int)
    requires s != []
    ensures WithWallet(s[1..], w) == if s[0].wallet == w then WithWallet(s, w)[1..] else WithWallet(s, w)
  {
    if s[0].wallet == w {
      assert WithWallet(s, w) == [s[0]] + WithWallet(s[1..], w);
    }
  }

  lemma WithWalletHead(s: seq<PublicUser>)
    requires s != []
    ensures WithWallet(s, s[0].wallet) != [] && WithWallet(s, s[0].wallet)[0] == s[0]
  {
  }

  /** In a non-increasing sequence nothing after the head has more than the head. */
  lemma {:induction false} WithWalletBound(s: seq<PublicUser>, w: int)
    requires s != [] && NonIncreasing(s)
    requires WithWallet(s, w) != []
    ensures w <= s[0].wallet
  {
    if s[0].wallet != w {
      assert WithWallet(s, w) == WithWallet(s[1..], w);
      NonIncreasingTail(s);
      WithWalletBound(s[1..], w);
      assert s[1..][0] == s[1];
    }
  }

  lemma NonIncreasingTail(s: seq<PublicUser>)
    requires s != [] && NonIncreasing(s)
    ensures NonIncreasing(s[1..])
  {
    forall i, j | 0 <= i < j < |s[1..]| ensures s[1..][i].wallet >= s[1..][j].wallet {
      assert s[1..][i] == s[i + 1] && s[1..][j] == s[j + 1];
    }
  }

  /**
   * A worked leaderboard: a richer user inserted second ranks first, and two
   * users with equal wallets keep their insertion order around it.
   */
  lemma LeaderboardExample(a: User, b: User, c: User)
    requires a.wallet == c.wallet < b.wallet
    ensures Leaderboard([a, b, c]) == [Public(b), Public(a), Public(c)]
  {
    var pa, pb, pc := Public(a), Public(b), Public(c);
    assert Project([a, b, c]) == [pa, pb, pc];
    SortPair(pb, pc);
    SortOverTop(pa, pb, pc);
  }

  /** Two entries already in non-increasing order sort to themselves. */
  lemma SortPair(x: PublicUser, y: PublicUser)
    requires y.wallet <= x.wallet
    ensures SortByWallet([x, y]) == [x, y]
  {
    assert [x, y][1..] == [y] && [y][1..] == [];
    assert SortByWallet([y]) == [y];
  }

  /** An entry that ties the last of a sorted pair and is below the first lands between them. */
  lemma SortOverTop(x: PublicUser, y: PublicUser, z: PublicUser)
    requires SortByWallet([y, z]) == [y, z]
    requires x.wallet == z.wallet < y.wallet
    ensures SortByWallet([x, y, z]) == [y, x, z]
  {
    assert [x, y, z][1..] == [y, z] && [y, z][1..] == [z];
    assert InsertByWallet(x, [z]) == [x, z];
  }

  // ---------------------------------------------------------------------
  // The mutable store and the handlers that change it
  // ---------------------------------------------------------------------

  /** The values of the `users` and `bets` maps, each in insertion order. */
  datatype Store = Store(users: seq<User>, bets: seq<Bet>)

  /**
   * The store invariant: usernames (the keys of `users`) and user ids are
   * distinct, no wallet is negative, bet ids (the keys of `bets`) are
   * distinct, and every bet belongs to a stored user.
   */
  ghost predicate Consistent(s: Store)
  {
    && UniqueNames(s.users)
    && (forall i, j :: 0 <= i < j < |s.users| ==> s.users[i].id != s.users[j].id)
    && (forall u <- s.users :: u.wallet >= 0)
    && (forall i, j :: 0 <= i < j < |s.bets| ==> s.bets[i].id != s.bets[j].id)
    && (forall b <- s.bets :: FindById(s.users, b.userId).Some?)
  }

  /** `us` with the user carrying `id` replaced by `v`. */
  function ReplaceById(us: seq<User>, id: Id, v: User): (r: seq<User>)
    ensures |r| == |us|
    ensures forall i :: 0 <= i < |us| ==> r[i] == if us[i].id == id then v else us[i]
  {
    seq(|us|, i requires 0 <= i < |us| => if us[i].id == id then v else us[i])
  }

  /** With distinct user ids, replacing by id changes exactly the one position carrying it. */
  lemma ReplaceFound(us: seq<User>, id: Id, v: User, k: nat)
    requires forall i, j :: 0 <= i < j < |us| ==> us[i].id != us[j].id
    requires k < |us| && us[k].id == id
    ensures ReplaceById(us, id, v) == us[k := v]
  {
    var r := ReplaceById(us, id, v);
    forall i | 0 <= i < |us| ensures r[i] == us[k := v][i] {
      if i < k { assert us[i].id != us[k].id; }
      if k < i { assert us[k].id != us[i].id; }
    }
  }

  /** What a state-changing handler answers, and the store it leaves. */
  datatype Step<T> = Step(result: Result<T>, next: Store)

  /**
   * The register handler as one atomic step. `hash` stands for
   * `bcrypt.hash(_, 10)` and `userId` for the uuid it draws.
   */
  function RegisterStep(s: Store, username: Option<string>, password: Option<string>,
                        hash: string -> string, userId: Id): (out: Step<PublicUser>)
    ensures out.next.bets == s.bets
    ensures out.result.Err? ==> out.next == s
    ensures !(Present(username) && Present(password)) ==> out.result == Err(CredentialsRequired)
    ensures Present(username) && Present(password) && FindByName(s.users, username.value).Some? ==>
      out.result == Err(UsernameExists)
    ensures Present(username) && Present(password) && FindByName(s.users, username.value).None? ==>
      var u := User(userId, username.value, hash(password.value), StartingWallet);
      out.result == Ok(Public(u)) && out.next.users == s.users + [u]
  {
    if !(Present(username) && Present(password)) then Step(Err(CredentialsRequired), s)
    else if FindByName(s.users, username.value).Some? then Step(Err(UsernameExists), s)
    else
      var user := User(userId, username.value, hash(password.value), StartingWallet);
      Step(Ok(Public(user)), s.(users := s.users + [user]))
  }

  /** Registering under a fresh uuid keeps the store invariant. */
  lemma RegisterPreserves(s: Store, username: Option<string>, password: Option<string>,
                          hash: string -> string, userId: Id)
    requires Consistent(s)
    requires FindById(s.users, userId).None?
    ensures Consistent(RegisterStep(s, username, password, hash, userId).next)
  {
    var out := RegisterStep(s, username, password, hash, userId);
    if out.result.Ok? {
      var us := out.next.users;
      var u := us[|s.users|];
      assert us == s.users + [u];
      forall i, j | 0 <= i < j < |us| ensures us[i].username != us[j].username && us[i].id != us[j].id {
        if j == |s.users| { assert us[i] in s.users; }
      }
      forall b <- s.bets ensures FindById(us, b.userId).Some? {
        var v :| v in s.users && v.id == b.userId;
        assert v in us;
      }
    }
  }

  /**
   * The place-bet handler as one atomic step. `userId` is the id from the
   * verified token, `cost` is taken from the request as it is, and `betId`
   * is the uuid drawn for the bet.
   */
  function PlaceBetStep(s: Store, userId: Id, questionId: string, selectedOption: int,
                        cost: int, betId: Id): (out: Step<Receipt>)
    ensures out.result.Err? ==> out.next == s
    ensures FindById(s.users, userId).None? ==> out.result == Err(UserNotFound)
    ensures FindById(s.users, userId).Some? && FindById(s.users, userId).value.wallet < cost ==>
      out.result == Err(InsufficientFunds)
    ensures FindById(s.users, userId).Some? && cost <= FindById(s.users, userId).value.wallet ==>
      var u := FindById(s.users, userId).value;
      var bet := Bet(betId, userId, questionId, selectedOption, cost);
      && out.result == Ok(Receipt(bet, u.wallet - cost))
      && out.next.users == ReplaceById(s.users, userId, u.(wallet := u.wallet - cost))
      && out.next.bets == s.bets + [bet]
    ensures out.result.Ok? ==> out.result.value.newWalletBalance >= 0
  {
    var found := FindById(s.users, userId);
    if found.None? then Step(Err(UserNotFound), s)
    else
      var user := found.value;
      if user.wallet < cost then Step(Err(InsufficientFunds), s)
      else
        var bet := Bet(betId, userId, questionId, selectedOption, cost);
        var next := Store(ReplaceById(s.users, userId, user.(wallet := user.wallet - cost)), s.bets + [bet]);
        Step(Ok(Receipt(bet, user.wallet - cost)), next)
  }

  /** Placing a bet under a fresh uuid keeps the store invariant, whatever the cost. */
  lemma PlaceBetPreserves(s: Store, userId: Id, questionId: string, selectedOption: int,
                          cost: int, betId: Id)
    requires Consistent(s)
    requires forall b <- s.bets :: b.id != betId
    ensures Consistent(PlaceBetStep(s, userId, questionId, selectedOption, cost, betId).next)
  {
    var out := PlaceBetStep(s, userId, questionId, selectedOption, cost, betId);
    var found := FindById(s.users, userId);
    if found.Some? && cost <= found.value.wallet {
      var user := found.value;
      var bet := Bet(betId, userId, questionId, selectedOption, cost);
      assert user.id == userId;
      assert out.next == Store(ReplaceById(s.users, user.id, user.(wallet := user.wallet - cost)), s.bets + [bet]);
      DebitConsistent(s, user, cost, bet);
    } else {
      assert out.next == s;
    }
  }

  /** The accepted case of the place-bet step, written out for the found user. */
  lemma PlaceBetAccepted(s: Store, userId: Id, questionId: string, selectedOption: int,
                         cost: int, betId: Id, user: User)
    requires FindById(s.users, userId) == Some(user) && cost <= user.wallet
    ensures var bet := Bet(betId, userId, questionId, selectedOption, cost);
      PlaceBetStep(s, userId, questionId, selectedOption, cost, betId) ==
        Step(Ok(Receipt(bet, user.wallet - cost)),
             Store(ReplaceById(s.users, userId, user.(wallet := user.wallet - cost)), s.bets + [bet]))
  {
  }

  /**
   * `user.wallet -= cost` mutates only the object `find` returned: with
   * distinct user ids, an accepted bet changes the wallet of the user at the
   * position carrying the caller's id and leaves every other user as it was.
   */
  lemma PlaceBetDebitsFound(s: Store, userId: Id, questionId: string, selectedOption: int,
                            cost: int, betId: Id, k: nat)
    requires forall i, j :: 0 <= i < j < |s.users| ==> s.users[i].id != s.users[j].id
    requires k < |s.users| && s.users[k].id == userId && cost <= s.users[k].wallet
    ensures var out := PlaceBetStep(s, userId, questionId, selectedOption, cost, betId);
      out.result.Ok? && out.next.users == s.users[k := s.users[k].(wallet := s.users[k].wallet - cost)]
  {
    var found := FindById(s.users, userId);
    var j :| 0 <= j < |s.users| && s.users[j] == found.value;
    assert j == k;
    ReplaceFound(s.users, userId, found.value.(wallet := found.value.wallet - cost), k);
  }

  /** Debiting a stored user by at most its wallet and recording a fresh bet of theirs keeps the invariant. */
  lemma DebitConsistent(s: Store, user: User, cost: int, bet: Bet)
    requires Consistent(s)
    requires user in s.users && cost <= user.wallet
    requires bet.userId == user.id && forall b <- s.bets :: b.id != bet.id
    ensures Consistent(Store(ReplaceById(s.users, user.id, user.(wallet := user.wallet - cost)), s.bets + [bet]))
  {
    var debited := user.(wallet := user.wallet - cost);
    var us := ReplaceById(s.users, user.id, debited);
    DebitKeepsKeys(s.users, user, debited);
    DebitKeepsFunds(s.users, user, debited);
    FreshBetIds(s.bets, bet);
    DebitKeepsOwners(s.users, s.bets, user, debited, bet);
  }

  /** Replacing a user by a copy with the same username and id keeps both kinds of key distinct. */
  lemma DebitKeepsKeys(us: seq<User>, user: User, v: User)
    requires UniqueNames(us)
    requires forall i, j :: 0 <= i < j < |us| ==> us[i].id != us[j].id
    requires user in us && v.id == user.id && v.username == user.username
    ensures UniqueNames(ReplaceById(us, user.id, v))
    ensures var r := ReplaceById(us, user.id, v);
      forall i, j :: 0 <= i < j < |r| ==> r[i].id != r[j].id
  {
    var r := ReplaceById(us, user.id, v);
    forall i, j | 0 <= i < j < |r|
      ensures r[i].username != r[j].username && r[i].id != r[j].id
    {
      assert r[i].username == us[i].username && r[j].username == us[j].username;
      assert r[i].id == us[i].id && r[j].id == us[j].id;
    }
  }

  /** Replacing a user by one with a non-negative wallet keeps every wallet non-negative. */
  lemma DebitKeepsFunds(us: seq<User>, user: User, v: User)
    requires forall u <- us :: u.wallet >= 0
    requires v.wallet >= 0
    ensures forall u <- ReplaceById(us, user.id, v) :: u.wallet >= 0
  {
    var r := ReplaceById(us, user.id, v);
    forall u <- r ensures u.wallet >= 0 {
      var i :| 0 <= i < |r| && r[i] == u;
    }
  }

  /** Appending a bet whose id is new keeps bet ids distinct. */
  lemma FreshBetIds(bs: seq<Bet>, bet: Bet)
    requires forall i, j :: 0 <= i < j < |bs| ==> bs[i].id != bs[j].id
    requires forall b <- bs :: b.id != bet.id
    ensures var r := bs + [bet];
      forall i, j :: 0 <= i < j < |r| ==> r[i].id != r[j].id
  {
    var r := bs + [bet];
    forall i, j | 0 <= i < j < |r| ensures r[i].id != r[j].id {
      if j == |bs| { assert r[i] in bs; }
    }
  }

  /** After the debit every bet, old or new, still belongs to a stored user. */
  lemma DebitKeepsOwners(us: seq<User>, bs: seq<Bet>, user: User, v: User, bet: Bet)
    requires forall b <- bs :: FindById(us, b.userId).Some?
    requires user in us && v.id == user.id && bet.userId == user.id
    ensures forall b <- bs + [bet] :: FindById(ReplaceById(us, user.id, v), b.userId).Some?
  {
    var r := ReplaceById(us, user.id, v);
    forall b <- bs + [bet] ensures FindById(r, b.userId).Some? {
      var w := if b == bet then user else FindById(us, b.userId).value;
      var i :| 0 <= i < |us| && us[i] == w;
      assert r[i].id == b.userId;
    }
  }

  lemma {:induction false} FindByNameAppend(us: seq<User>, u: User)
    requires FindByName(us, u.username).None?
    ensures FindByName(us + [u], u.username) == Some(u)
  {
    if us != [] {
      assert (us + [u])[1..] == us[1..] + [u];
      FindByNameAppend(us[1..], u);
    }
  }

  lemma {:induction false} FindByIdAppend(us: seq<User>, u: User)
    requires FindById(us, u.id).None?
    ensures FindById(us + [u], u.id) == Some(u)
  {
    if us != [] {
      assert (us + [u])[1..] == us[1..] + [u];
      FindByIdAppend(us[1..], u);
    }
  }

  /**
   * After a successful register the new user can log in with the same
   * password, provided `matches` accepts every password against its own hash
   * (what bcrypt guarantees), and the profile handler finds them by their id.
   */
  lemma RegisterThenLogin(s: Store, name: string, password: string, hash: string -> string,
                          matches: (string, string) -> bool, userId: Id)
    requires Consistent(s) && FindById(s.users, userId).None?
    requires RegisterStep(s, Some(name), Some(password), hash, userId).result.Ok?
    requires forall p :: matches(p, hash(p))
    ensures var next := RegisterStep(s, Some(name), Some(password), hash, userId).next;
      var u := User(userId, name, hash(password), StartingWallet);
      && UniqueNames(next.users)
      && Login(next.users, Some(name), Some(password), matches) == Ok(Public(u))
      && Profile(next.users, userId) == Ok(Public(u))
  {
    var u := User(userId, name, hash(password), StartingWallet);
    FindByNameAppend(s.users, u);
    FindByIdAppend(s.users, u);
  }

  /** A bet that passed the funds check shows up last in its owner's bet list, and in no other. */
  lemma PlaceBetThenList(s: Store, userId: Id, questionId: string, selectedOption: int,
                         cost: int, betId: Id, viewer: Id)
    ensures var out := PlaceBetStep(s, userId, questionId, selectedOption, cost, betId);
      ListBets(out.next.bets, viewer) ==
        if out.result.Ok? && viewer == userId then ListBets(s.bets, viewer) + [out.result.value.bet]
        else ListBets(s.bets, viewer)
  {
    var out := PlaceBetStep(s, userId, questionId, selectedOption, cost, betId);
    if out.result.Ok? {
      ListBetsAfterBet(s.bets, out.result.value.bet, viewer);
    }
  }

  /**
   * The handler trusts the client's cost: a negative cost passes the funds
   * check for any stored user and raises the wallet.
   */
  lemma NegativeCostCredits(s: Store, userId: Id, questionId: string, selectedOption: int,
                            cost: int, betId: Id)
    requires Consistent(s)
    requires FindById(s.users, userId).Some? && cost < 0
    ensures var out := PlaceBetStep(s, userId, questionId, selectedOption, cost, betId);
      out.result.Ok? && out.result.value.newWalletBalance > FindById(s.users, userId).value.wallet
  {
  }

  /**
   * The server process: the two module-level maps, updated in place by the
   * register and place-bet handlers.
   */
  class Server {
    var users: seq<User>
    var bets: seq<Bet>

    function State(): Store
      reads this
    {
      Store(users, bets)
    }

    ghost predicate Valid()
      reads this
    {
      Consistent(State())
    }

    constructor ()
      ensures Valid()
      ensures users == [] && bets == []
    {
      users, bets := [], [];
    }

    method Register(username: Option<string>, password: Option<string>,
                    hash: string -> string, userId: Id) returns (r: Result<PublicUser>)
      requires Valid()
      requires FindById(users, userId).None?
      modifies this
      ensures Step(r, State()) == RegisterStep(old(State()), username, password, hash, userId)
      ensures Valid()
    {
      if !(Present(username) && Present(password)) {
        return Err(CredentialsRequired);
      }
      if FindByName(users, username.value).Some? {
        return Err(UsernameExists);
      }
      RegisterPreserves(State(), username, password, hash, userId);
      var user := User(userId, username.value, hash(password.value), StartingWallet);
      users := users + [user];
      r := Ok(Public(user));
    }

    method PlaceBet(userId: Id, questionId: string, selectedOption: int, cost: int, betId: Id)
      returns (r: Result<Receipt>)
      requires Valid()
      requires forall b <- bets :: b.id != betId
      modifies this
      ensures Step(r, State()) == PlaceBetStep(old(State()), userId, questionId, selectedOption, cost, betId)
      ensures Valid()
    {
      ghost var s0 := State();
      var found := FindById(users, userId);
      if found.None? {
        return Err(UserNotFound);
      }
      var user := found.value;
      if user.wallet < cost {
        return Err(InsufficientFunds);
      }
      PlaceBetPreserves(s0, userId, questionId, selectedOption, cost, betId);
      PlaceBetAccepted(s0, userId, questionId, selectedOption, cost, betId, user);
      var debited := user.(wallet := user.wallet - cost);
      var bet := Bet(betId, userId, questionId, selectedOption, cost);
      users, bets := ReplaceById(users, userId, debited), bets + [bet];
      r := Ok(Receipt(bet, debited.wallet));
    }
  }
}

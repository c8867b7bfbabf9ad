# Piki prediction market: ledger and pricing model

A Dafny model of the two pieces of domain logic in the Piki demo prediction
market.

- **The backend ledger** (`backend/server.js`). An Express server keeps two
  in-memory JavaScript `Map`s: `users`, keyed by username, and `bets`, keyed
  by bet id. Its handlers register a user with a $10.00 wallet, log a user in,
  return a profile, place a bet, list a user's bets, and build a leaderboard.
  Module `Ledger` (`ledger.dfy`) models each map as the sequence of its values
  in insertion order, with distinct keys. That is how a JavaScript `Map`
  behaves: `Array.from(m.values())` yields insertion order. The two handlers
  that change the maps are pure step functions (`RegisterStep`,
  `PlaceBetStep`) over a `Store` value. The class `Server` holds the two
  collections as fields. Its methods `Register` and `PlaceBet` update those
  fields in place, and their postconditions say the new state is exactly the
  one the step function gives. The store invariant `Consistent` covers five
  facts: usernames are unique, user ids are unique, no wallet is negative, bet
  ids are unique, and every bet belongs to a stored user. Both step functions preserve it when the
  new id is not in use (`RegisterPreserves`, `PlaceBetPreserves`).
- **The market page** (`src/App.tsx`). The page shows the options 0..10, the
  price rule `costFor(x) = +(0.1 * x).toFixed(2)`, and a single `selected`
  state cell. From that cell it derives the highlighted option, the selection
  text, the "Total Cost" text and whether the Place Bet button is disabled.
  Module `Market` (`market.dfy`) models all of this, and the class `Page`
  holds the state cell. Module `Decimal` (`decimal.dfy`) models the two
  JavaScript conversions the page uses: `toFixed(2)`, and unary `+` reading
  the printed string back. The model proves that reading back what
  `toFixed(2)` printed gives the amount rounded to whole cents.

Money is integer cents throughout, so the starting wallet is 1000 and
`costFor(x)` is `10·x`. The place-bet handler takes `cost` from the request
body as it is. It does not recompute the cost, does not check that the cost
is non-negative, and does not range-check `selectedOption`. The model does
the same. As a result, a negative cost always passes the funds check and
raises the wallet (`NegativeCostCredits`). The funds invariant still holds,
because a cost is accepted only when `cost <= wallet`.

Collaborators the model takes as parameters:
- `uuidv4()` becomes an id argument. The preservation lemmas,
  `RegisterThenLogin` and the `Server` methods require an id not already in
  use: no user has it (register), or no bet has it (place bet).
- `bcrypt.hash(password, 10)` becomes a function parameter `hash`.
- `bcrypt.compare(password, hash)` becomes a predicate parameter `matches`.
- The JWT-verified caller id (`req.user.userId`) becomes a plain input.

## Model

| member | source | states |
|---|---|---|
| `Ledger.FindById` | backend/server.js:122 | `find` by id: None exactly when no user has the id; otherwise a stored user carrying that id |
| `Ledger.FindByIdFirst` | backend/server.js:139 | `find` returns the first user in insertion order that carries the id |
| `Ledger.Profile` | backend/server.js:121-133 | fails with UserNotFound exactly when no user has the caller's id; otherwise returns the public fields of a user with that id |
| `Ledger.FindByName` | backend/server.js:94 | `users.get(username)`: None exactly when no user has that username; otherwise the user stored under it |
| `Ledger.Login` | backend/server.js:86-118 | a missing or empty field gives CredentialsRequired; otherwise it succeeds exactly when a user with that username exists and the password matches their hash, and returns that user's public fields; every other case gives InvalidCredentials, whether the user is unknown or the password is wrong |
| `Ledger.ListBets` | backend/server.js:176-179 | a bet is in the result exactly when it is stored and its userId is the caller's |
| `Ledger.ListBetsAppend` | backend/server.js:177 | filtering distributes over concatenation, so the result keeps insertion order |
| `Ledger.ListBetsAfterBet` | backend/server.js:163-177 | a bet appended to `bets` appears last in its owner's list and in no other list |
| `Ledger.InsertByWallet` | backend/server.js:188 | one insertion step of the sort: the result holds exactly the input plus the new entry (as a multiset) |
| `Ledger.InsertWithWallet` | backend/server.js:188 | the new entry goes ahead of every entry with the same wallet, and entries with the same wallet keep their relative order |
| `Ledger.InsertSorted` | backend/server.js:188 | inserting into a list sorted by non-increasing wallet keeps it sorted |
| `Ledger.SortByWallet` | backend/server.js:188 | the result is sorted by non-increasing wallet, is a permutation of the input, and keeps the input order among equal wallets (a stable sort) |
| `Ledger.Leaderboard` | backend/server.js:182-191 | the result is a permutation of `Project(users)`, the public fields of each user in insertion order; it is sorted by non-increasing wallet, and users with equal wallets stay in insertion order |
| `Ledger.StableOrderUnique` | backend/server.js:188 | two sequences that are both sorted by non-increasing wallet and agree on the order within each wallet value are equal, so the leaderboard contract determines its result |
| `Ledger.LeaderboardExample` | backend/server.js:183-188 | a user inserted second with a larger wallet ranks first, and two users with equal smaller wallets keep their insertion order behind it |
| `Ledger.ReplaceFound` | backend/server.js:150 | when user ids are distinct, replacing by id changes exactly the one position that carries the id |
| `Ledger.RegisterStep` | backend/server.js:44-83 | a missing or empty field gives CredentialsRequired; a taken username gives UsernameExists; on any error the store is unchanged; otherwise exactly one user is appended, with the new id, the hashed password and a wallet of 1000 cents, and its public fields are returned; bets are never touched |
| `Ledger.RegisterPreserves` | backend/server.js:52-67 | registering under an id no user has keeps the store invariant |
| `Ledger.PlaceBetStep` | backend/server.js:136-173 | no user with the id gives UserNotFound; `wallet < cost` gives InsufficientFunds; on any error nothing changes (all-or-nothing); otherwise the users become `ReplaceById(users, userId, u')`, where u' is the found user with wallet `wallet - cost` (at least 0); one bet is appended (the new id, the user's id, the given question, option and cost); and newWalletBalance is the new wallet |
| `Ledger.PlaceBetDebitsFound` | backend/server.js:139-150 | with distinct user ids, an accepted bet debits exactly the user at the position carrying the caller's id and leaves every other user as it was |
| `Ledger.PlaceBetPreserves` | backend/server.js:139-163 | placing a bet under an id no bet has keeps the store invariant, whatever the cost |
| `Ledger.DebitConsistent` | backend/server.js:145-163 | debiting a stored user by at most their wallet and appending a bet of theirs with a new id keeps usernames and ids unique, wallets non-negative, bet ids distinct, and every bet owned by a stored user |
| `Ledger.RegisterThenLogin` | backend/server.js:56-101 | if `matches` accepts every password against its own hash, a newly registered user can log in with that password, and the profile handler finds them by their new id |
| `Ledger.PlaceBetThenList` | backend/server.js:150-177 | an accepted bet appears last in its owner's bet list; a rejected bet changes no one's list |
| `Ledger.NegativeCostCredits` | backend/server.js:138-150 | the cost from the request is trusted: in a consistent store, a negative cost is accepted for any stored user and raises their wallet |
| `Ledger.Server.constructor` | backend/server.js:16-17 | both maps start empty, and the invariant holds |
| `Ledger.Server.Register` | backend/server.js:44-83 | the in-place handler leaves exactly the answer and store that `RegisterStep` gives, and keeps the invariant |
| `Ledger.Server.PlaceBet` | backend/server.js:136-173 | the in-place handler leaves exactly the answer and store that `PlaceBetStep` gives, and keeps the invariant |
| `Market.Options` | src/App.tsx:7 | x is an option exactly when 0 <= x <= 10, and the options are strictly ascending |
| `Market.CostFor` | src/App.tsx:6 | `+(0.1 * x).toFixed(2)` is exactly 10·x cents |
| `Market.CostForShape` | src/App.tsx:6 | costFor(0) is 0, costFor(10) is 100 cents, and the cost is strictly increasing in x |
| `Market.Active` | src/App.tsx:35 | a highlighted option is the one the total charges for, the selection text is not "None", and the Place Bet button is enabled |
| `Market.ActiveAmong` | src/App.tsx:34-35 | an option is highlighted exactly when it equals `selected` |
| `Market.ActiveAmongDistinct` | src/App.tsx:35 | over distinct options, the highlighted ones are the selected option alone if it is among them, and none otherwise |
| `Market.ExactlyOneActive` | src/App.tsx:34-40 | when `selected` is one of the options, exactly that option is highlighted; when it is null, none is |
| `Market.SelectionText` | src/App.tsx:65 | the text is "None" exactly when nothing is selected; otherwise it ends in " Yes" after the numeral of the selected option (reading the digits back gives the option, after a "-" when it is negative, and there are no leading zeros: option 0 reads exactly "0 Yes") |
| `Market.TotalCost` | src/App.tsx:70 | the total cost is 0 when nothing is selected, and `costFor(selected)` (10·selected cents) otherwise |
| `Market.TotalCostText` | src/App.tsx:70 | the "Total Cost" text reads back as the total cost, and is exactly "0.00" when nothing is selected and otherwise the `d.dd` text of the selected option's cost (after a "-" for a negative option), as `costFor(selected).toFixed(2)` prints it |
| `Market.CostText` | src/App.tsx:70 | for an option x, `costFor(x).toFixed(2)` prints the `d.dd` text of 10·x cents (after a "-" for a negative x) and reads back as 10·x cents |
| `Market.NoCostText` | src/App.tsx:70 | the "0.00" shown with nothing selected reads back as zero cents |
| `Market.BetDisabled` | src/App.tsx:73 | the Place Bet button is disabled exactly when the selection text reads "None", and then the total is 0 |
| `Market.Page.constructor` | src/App.tsx:5 | `selected` starts null: the button is disabled, nothing is highlighted, the texts are "None" and "0.00" |
| `Market.Page.Click` | src/App.tsx:40 | clicking option x sets `selected` to x: the button is enabled, only x is highlighted, and the total is 10·x cents |
| `Decimal.NatTextRoundTrip` | src/App.tsx:65-70 | reading back the digits printed for a whole number (`${selected}`, and the dollars part of `toFixed(2)`) gives that number |
| `Decimal.CentsTextRoundTrip` | src/App.tsx:70 | reading back a printed amount `d.dd` gives its cents, and the text carries no sign |
| `Decimal.SignedCentsRoundTrip` | src/App.tsx:6 | reading back a printed amount, with or without a leading "-", gives its signed cents |
| `Decimal.ToFixed2RoundTrip` | src/App.tsx:6 | `+d.toFixed(2)` is d rounded to whole cents, with halves rounded away from zero |
| `Decimal.WholeCentsText` | src/App.tsx:6 | `toFixed(2)` of a whole number of cents c, divided by 100, prints exactly the `d.dd` text of the magnitude of c, after a "-" when c is negative |
| `Decimal.WholeCentsReadBack` | src/App.tsx:6 | `+(c / 100).toFixed(2)` is c cents again for every whole number c |

## Left out

- HTTP wiring is not modelled: Express, `cors`, the JSON body parser, `app.listen`, console logging, the health route, and status codes. Each error is a `Result` value named after its message.
- JWT signing and verification are not modelled. The caller's user id is a trusted input, and login returns no token.
- bcrypt is a foreign asynchronous library. Hashing and comparing are parameters (`hash`, `matches`). `RegisterThenLogin` takes "a password matches its own hash" as a hypothesis.
- uuid generation is not modelled. The new id is an argument. Only the invariant lemmas, `RegisterThenLogin` and the `Server` methods require it to be unused, which is what a uuid provides with overwhelming probability.
- The `createdAt` and `timestamp` fields are not modelled, because they come from the clock.
- The register handler awaits the hash between the duplicate-username check and the insert. Two concurrent registrations of one name could both pass the check. The model treats each handler as one atomic step.
- Money is integer cents, not JavaScript floating point. A non-whole-cent or non-numeric `cost` is not modelled. In JavaScript, a missing `cost` would make the wallet NaN.
- Request fields are modelled as an optional string (`Option<string>`). How JavaScript treats a missing or empty field as false is modelled; non-string JSON values are not.
- `questionId` and `selectedOption` take any value, as in the source. They are stored as a string and an integer.
- The `catch` branches that answer "Server error" are not modelled: nothing in the model throws.
- `costFor` computes `0.1 * x` over exact reals, not IEEE doubles. `toFixed` is modelled only for numbers below 10^21. Unary `+` is modelled only on strings of the form `[-]digits.dd`, which is the form `toFixed(2)` prints.
- The per-option label "Cost: $…" (src/App.tsx:36, 53) is not modelled separately. It is the same `toFixed(2)` rendering, and the markup, Tailwind classes and `BetButton` component are not modelled at all.
- PlaceBetStep: the debit replaces every user that carries the caller's id with the debited copy of the first one, but the source mutates only the object `find` returned (backend/server.js:139, 150). The two agree when user ids are distinct, which store states reached by `RegisterStep` and `PlaceBetStep` keep (`Consistent`, `PlaceBetDebitsFound`). A store with two users sharing one uuid would show the difference.
- PlaceBetStep: a new bet is appended to `bets`. `bets.set` (backend/server.js:163) would instead overwrite an existing bet with the same id, in place. The two agree whenever the bet's uuid is unused, which is what `PlaceBetPreserves` and `Server.PlaceBet` require.
- PlaceBetThenList: because of the append above, it describes the source only when the bet's uuid is unused. With a reused uuid, the source would also drop the overwritten bet from its owner's list.
- Not modelled: `src/types/index.ts`, which only declares interfaces (the `User` and `Bet` datatypes follow it), and `vite.config.ts`, which is build configuration.

/**
  The account-creation logic of the signup handler: the user table, the
  username taken from the email's local part with the smallest free
  numeric suffix on collision, and the split of a full name into first
  and last names.
 */
module Accounts {
  import opened Strings
  import opened Numerals

  /** One row of the user table, as far as signup writes it. */
  datatype User = User(username: string, email: string, firstName: string, lastName: string)

  /** The user table, in insertion order. */
  type Store = seq<User>

  function Usernames(store: Store): set<string> {
    set i | 0 <= i < |store| :: store[i].username
  }

  /** Every email some user holds. */
  function Emails(store: Store): set<string> {
    set i | 0 <= i < |store| :: store[i].email
  }

  /** `User.objects.filter(email=email).exists()`: whether some user holds
      exactly this email (no case folding). */
  function EmailInUse(store: Store, email: string): (inUse: bool)
    ensures inUse <==> email in Emails(store)
  {
    exists i :: 0 <= i < |store| && store[i].email == email
  }

  /** The database's unique constraint on usernames. */
  ghost predicate UniqueUsernames(store: Store) {
    forall i, j :: 0 <= i < j < |store| ==> store[i].username != store[j].username
  }

  /** There are no more distinct usernames than users. */
  lemma {:induction false} UsernamesBound(store: Store)
    ensures |Usernames(store)| <= |store|
    decreases |store|
  {
    if |store| > 0 {
      var init := store[..|store| - 1];
      UsernamesBound(init);
      assert Usernames(store) == Usernames(init) + {store[|store| - 1].username} by {
        forall u | u in Usernames(store)
          ensures u in Usernames(init) + {store[|store| - 1].username}
        {
          var i :| 0 <= i < |store| && store[i].username == u;
          if i < |store| - 1 {
            assert init[i] == store[i];
          }
        }
        forall u | u in Usernames(init)
          ensures u in Usernames(store)
        {
          var i :| 0 <= i < |init| && init[i].username == u;
          assert store[i] == init[i];
        }
      }
    }
  }

  // ---------------------------------------------------------------------
  // Username derivation
  // ---------------------------------------------------------------------

  /** `email.split('@')[0]`: the text before the first '@', or the whole
      email when it has none; it never contains '@'. */
  function BaseUsername(email: string): (base: string)
    ensures '@' !in base
    ensures base <= email
    ensures base == email <==> '@' !in email
    ensures '@' in email ==> email[|base|] == '@'
  {
    SplitHead(email, '@');
    Split(email, '@')[0]
  }

  /** The k-th name the suffix loop tries: the base itself first, then
      the base followed by `str(k)`. */
  function Candidate(base: string, k: nat): string {
    if k == 0 then base else base + Decimal(k)
  }

  /** The first `k` candidates are all held. */
  ghost predicate AllTaken(taken: set<string>, base: string, k: nat) {
    forall j :: 0 <= j < k ==> Candidate(base, j) in taken
  }

  /** Different tries give different names, because `str` is injective and
      a suffix is never empty. */
  lemma CandidateInjective(base: string, i: nat, j: nat)
    ensures Candidate(base, i) == Candidate(base, j) ==> i == j
  {
    if i != 0 && j != 0 && Candidate(base, i) == Candidate(base, j) {
      assert Candidate(base, i)[|base|..] == Decimal(i);
      assert Candidate(base, j)[|base|..] == Decimal(j);
      DecimalInjective(i, j);
    }
  }

  /** Pigeonhole: when the first `k` candidates are all held, at least `k`
      distinct names are held. */
  lemma {:induction false} Pigeonhole(taken: set<string>, base: string, k: nat)
    requires AllTaken(taken, base, k)
    ensures k <= |taken|
    decreases k
  {
    if k > 0 {
      var last := Candidate(base, k - 1);
      var rest := taken - {last};
      forall j | 0 <= j < k - 1
        ensures Candidate(base, j) in rest
      {
        CandidateInjective(base, j, k - 1);
      }
      Pigeonhole(rest, base, k - 1);
    }
  }

  /** The first free try at or after `k`, when all before `k` are held. */
  function FirstFree(taken: set<string>, base: string, k: nat): (r: nat)
    requires AllTaken(taken, base, k)
    ensures k <= r <= |taken|
    ensures Candidate(base, r) !in taken
    ensures AllTaken(taken, base, r)
    decreases |taken| - k
  {
    if Candidate(base, k) !in taken then
      Pigeonhole(taken, base, k);
      k
    else
      Pigeonhole(taken, base, k + 1);
      FirstFree(taken, base, k + 1)
  }

  /** When the first `k` tries are held, so is every suffix below `k`. */
  lemma SuffixesTaken(taken: set<string>, base: string, k: nat)
    requires AllTaken(taken, base, k)
    ensures forall j :: 1 <= j < k ==> base + Decimal(j) in taken
  {
    forall j | 1 <= j < k
      ensures base + Decimal(j) in taken
    {
      assert Candidate(base, j) in taken;
    }
  }

  /** Reference definition of the username signup picks, the first free
      candidate: a name not held, which is the base when the base is free
      and otherwise the base followed by the smallest free suffix k >= 1,
      every smaller suffix being held. */
  function DeriveUsername(taken: set<string>, base: string): (username: string)
    ensures username !in taken
    ensures base !in taken ==> username == base
    ensures base in taken ==>
      exists k :: 1 <= k <= |taken| && username == base + Decimal(k)
        && forall j :: 1 <= j < k ==> base + Decimal(j) in taken
  {
    var k := FirstFree(taken, base, 0);
    SuffixesTaken(taken, base, k);
    assert base in taken ==> k >= 1;
    Candidate(base, k)
  }

  /** The derived username is held by no user. It is the base itself when
      that is free; otherwise it is the base followed by the smallest
      suffix k >= 1 that is free, every smaller suffix being held, and k is
      at most the number of users. */
  lemma DeriveUsernameIsSmallestFree(store: Store, base: string)
    ensures DeriveUsername(Usernames(store), base) !in Usernames(store)
    ensures base !in Usernames(store) ==> DeriveUsername(Usernames(store), base) == base
    ensures base in Usernames(store) ==>
      exists k :: 1 <= k <= |store| && DeriveUsername(Usernames(store), base) == base + Decimal(k)
        && forall j :: 1 <= j < k ==> base + Decimal(j) in Usernames(store)
  {
    UsernamesBound(store);
  }

  /** Only one try can be both free and preceded by held tries only, so
      "first free" names a single username. */
  lemma FirstFreeUnique(taken: set<string>, base: string, i: nat, k: nat)
    requires AllTaken(taken, base, i) && Candidate(base, i) !in taken
    requires AllTaken(taken, base, k) && Candidate(base, k) !in taken
    ensures i == k
  {
  }

  /** The `while` loop of the signup handler: try the base, then base1,
      base2, ... until no user holds the name. `counter` is the handler's
      counter variable when the loop exits. */
  method ChooseUsername(store: Store, base: string) returns (username: string, counter: nat)
    ensures username !in Usernames(store)
    ensures counter == 1 ==> username == base
    ensures counter > 1 ==> username == base + Decimal(counter - 1) && base in Usernames(store)
    ensures forall j :: 1 <= j < counter - 1 ==> base + Decimal(j) in Usernames(store)
    ensures 1 <= counter <= |store| + 1
    ensures username == DeriveUsername(Usernames(store), base)
  {
    var taken := Usernames(store);
    UsernamesBound(store);
    username := base;
    counter := 1;
    while username in taken
      invariant 1 <= counter <= |taken| + 1
      invariant username == Candidate(base, counter - 1)
      invariant AllTaken(taken, base, counter - 1)
      decreases |taken| + 1 - counter
    {
      Pigeonhole(taken, base, counter);
      username := base + Decimal(counter);
      counter := counter + 1;
    }
    FirstFreeUnique(taken, base, counter - 1, FirstFree(taken, base, 0));
    forall j | 1 <= j < counter - 1
      ensures base + Decimal(j) in taken
    {
      assert Candidate(base, j) in taken;
    }
    if counter > 1 {
      assert Candidate(base, 0) in taken;
    }
  }

  // ---------------------------------------------------------------------
  // Name splitting
  // ---------------------------------------------------------------------

  datatype Names = Names(first: string, last: string)

  /** `full_name.split(' ')[0]` and `' '.join(full_name.split(' ')[1:])`,
      both empty for an empty name. */
  /** The first name is the text before the first space. With a space,
      the two names joined by one space give back the full name exactly;
      without one, the first name is the whole name and the last is empty
      (so an empty name gives two empty names). */
  function SplitFullName(fullName: string): (names: Names)
    ensures ' ' !in names.first
    ensures names.first <= fullName
    ensures ' ' in fullName ==> names.first + " " + names.last == fullName
    ensures ' ' !in fullName ==> names == Names(fullName, "")
  {
    if fullName == "" then Names("", "")
    else
      var parts := Split(fullName, ' ');
      SplitHead(fullName, ' ');
      JoinSplit(fullName, ' ');
      assert |parts| > 1 ==> fullName == parts[0] + [' '] + Join(' ', parts[1..]);
      Names(parts[0], if |parts| > 1 then Join(' ', parts[1..]) else "")
  }

  // ---------------------------------------------------------------------
  // Account creation
  // ---------------------------------------------------------------------

  /** The row `create_user` inserts for a new account: a username no user
      holds, which starts with the email's local part and is exactly that
      local part when it is free; the submitted email; the split name. */
  function NewUser(store: Store, email: string, fullName: string): (user: User)
    ensures user.username !in Usernames(store)
    ensures BaseUsername(email) <= user.username
    ensures user.username == BaseUsername(email) <==> BaseUsername(email) !in Usernames(store)
    ensures user.email == email
    ensures Names(user.firstName, user.lastName) == SplitFullName(fullName)
  {
    var names := SplitFullName(fullName);
    User(DeriveUsername(Usernames(store), BaseUsername(email)), email, names.first, names.last)
  }

  /** A new account never takes a username some user already holds, so the
      unique constraint survives the insertion. */
  lemma NewUserKeepsUsernamesUnique(store: Store, email: string, fullName: string)
    requires UniqueUsernames(store)
    ensures NewUser(store, email, fullName).username !in Usernames(store)
    ensures UniqueUsernames(store + [NewUser(store, email, fullName)])
  {
    var s' := store + [NewUser(store, email, fullName)];
    forall i, j | 0 <= i < j < |s'|
      ensures s'[i].username != s'[j].username
    {
      if j == |store| {
        assert s'[i].username == store[i].username;
        assert store[i].username in Usernames(store);
      }
    }
  }
}

/** Choosing one stored credential, and one instance of a connection, whatever the order they are listed in. */
module Choice {
  import opened Wrappers
  import opened Text
  import opened Credentials
  import opened Grouping
  import Sorting

  predicate PreferCredential(a: Credential, b: Credential, preferred: string, now: Time) {
    Prefer(CandidateOf(a, now), CandidateOf(b, now), preferred)
  }

  /** What wins between two stored credentials, in terms of what is stored about them. */
  lemma CredentialOrder(a: Credential, b: Credential, preferred: string, now: Time)
    ensures !NeedsReconnect(a, now) && NeedsReconnect(b, now) ==> PreferCredential(a, b, preferred, now)
    ensures var alike := NeedsReconnect(a, now) == NeedsReconnect(b, now)
                         && IsPreferred(a.qualifier, preferred) == IsPreferred(b.qualifier, preferred);
            && (alike && a.createdAt != ZERO_TIME && (b.createdAt == ZERO_TIME || a.createdAt < b.createdAt) ==>
                  PreferCredential(a, b, preferred, now))
            && (alike && a.createdAt == b.createdAt && Less(a.id, b.id) ==> PreferCredential(a, b, preferred, now))
            && (alike && a.createdAt == b.createdAt && a.id == b.id && Less(a.qualifier, b.qualifier) ==>
                  PreferCredential(a, b, preferred, now))
  {
    PreferenceOrder(CandidateOf(a, now), CandidateOf(b, now), preferred);
  }

  /** The canonical credential per account of a whole list. */
  function AllAccounts(cs: seq<Credential>, preferred: string, now: Time): seq<Credential> {
    Accounts(cs, |cs|, preferred, now)
  }

  /** A property that whatever is not beaten by one of its holders has as well. */
  ghost predicate UpClosed(p: Credential -> bool, preferred: string, now: Time) {
    forall x, y {:trigger PreferCredential(x, y, preferred, now)} ::
      p(x) && !PreferCredential(x, y, preferred, now) ==> p(y)
  }

  // ---- What an account stands for ----

  /** An account's credential comes from the list, has the account's key and is unbeaten in the account. */
  lemma AccountIsUnbeaten(cs: seq<Credential>, g: nat, preferred: string, now: Time) returns (b: nat)
    requires g < |AllAccounts(cs, preferred, now)|
    ensures b < |cs| && AllAccounts(cs, preferred, now)[g] == cs[b]
    ensures g < |Heads(AccountKeys(cs), |cs|)| && SameAccount(AccountKeys(cs), Heads(AccountKeys(cs), |cs|)[g], b)
    ensures forall i: nat :: i < |cs| && SameAccount(AccountKeys(cs), Heads(AccountKeys(cs), |cs|)[g], i) ==>
              !PreferCredential(cs[i], cs[b], preferred, now)
  {
    var keys, cands := AccountKeys(cs), Candidates(cs, now);
    var h := Heads(keys, |cs|)[g];
    CandidateKeys(cs, now);
    BestIsEarliestUnbeaten(cands, h, h, preferred);
    b := Best(cands, Members(keys, h, |cs|), preferred);
    forall i: nat | i < |cs| && SameAccount(keys, h, i) ensures !PreferCredential(cs[i], cs[b], preferred, now) {
      BestIsEarliestUnbeaten(cands, h, i, preferred);
    }
  }

  /** Every credential of the list has an account that does at least as well. */
  lemma Represented(cs: seq<Credential>, i: nat, preferred: string, now: Time) returns (g: nat)
    requires i < |cs|
    ensures g < |AllAccounts(cs, preferred, now)| == |Heads(AccountKeys(cs), |cs|)|
    ensures SameAccount(AccountKeys(cs), Heads(AccountKeys(cs), |cs|)[g], i)
    ensures !PreferCredential(cs[i], AllAccounts(cs, preferred, now)[g], preferred, now)
  {
    var keys := AccountKeys(cs);
    var h := HeadOf(keys, i);
    HeadsAreStarts(keys, |cs|);
    g :| 0 <= g < |Heads(keys, |cs|)| && Heads(keys, |cs|)[g] == h;
    var b := AccountIsUnbeaten(cs, g, preferred, now);
  }

  lemma AccountsHave(cs: seq<Credential>, p: Credential -> bool, preferred: string, now: Time)
    requires UpClosed(p, preferred, now)
    ensures (exists a :: a in AllAccounts(cs, preferred, now) && p(a)) <==> (exists c :: c in cs && p(c))
    ensures forall a :: a in AllAccounts(cs, preferred, now) ==> a in cs
  {
    var accounts := AllAccounts(cs, preferred, now);
    forall a | a in accounts ensures a in cs {
      var g :| 0 <= g < |accounts| && accounts[g] == a;
      var b := AccountIsUnbeaten(cs, g, preferred, now);
    }
    forall c | c in cs && p(c) ensures exists a :: a in accounts && p(a) {
      var i :| 0 <= i < |cs| && cs[i] == c;
      var g := Represented(cs, i, preferred, now);
      assert accounts[g] in accounts && p(accounts[g]);
    }
  }

  /** All credentials with property `p` belong to one account. */
  ghost predicate OneAccount(cs: seq<Credential>, p: Credential -> bool) {
    forall i, j :: 0 <= i < j < |cs| && p(cs[i]) && p(cs[j]) ==>
      AccountKey(cs[i]) == AccountKey(cs[j]) && AccountKey(cs[i]) != ""
  }

  lemma OneAccountKept(cs: seq<Credential>, p: Credential -> bool, g: nat, g': nat, preferred: string, now: Time)
    requires OneAccount(cs, p) && g < |AllAccounts(cs, preferred, now)| && g' < |AllAccounts(cs, preferred, now)|
    requires p(AllAccounts(cs, preferred, now)[g]) && p(AllAccounts(cs, preferred, now)[g'])
    ensures g == g'
  {
    var keys := AccountKeys(cs);
    var b := AccountIsUnbeaten(cs, g, preferred, now);
    var b' := AccountIsUnbeaten(cs, g', preferred, now);
    assert SameAccount(keys, b, b');
    HeadsDistinct(keys, Heads(keys, |cs|)[g], Heads(keys, |cs|)[g']);
    HeadsAreStarts(keys, |cs|);
  }

  lemma OneAccountLeft(cs: seq<Credential>, p: Credential -> bool, i: nat, j: nat, preferred: string, now: Time)
    requires UpClosed(p, preferred, now) && i < j < |cs| && p(cs[i]) && p(cs[j])
    requires |Sorting.Filter(p, AllAccounts(cs, preferred, now))| <= 1
    ensures AccountKey(cs[i]) == AccountKey(cs[j]) && AccountKey(cs[i]) != ""
  {
    var accounts := AllAccounts(cs, preferred, now);
    Sorting.FilterAtMostOne(p, accounts);
    var g := Represented(cs, i, preferred, now);
    var g' := Represented(cs, j, preferred, now);
    assert p(accounts[g]) && p(accounts[g']);
    assert g == g';
  }

  /** At most one account has property `p` exactly when all credentials with it are of one account. */
  lemma AtMostOneAccount(cs: seq<Credential>, p: Credential -> bool, preferred: string, now: Time)
    requires UpClosed(p, preferred, now)
    ensures |Sorting.Filter(p, AllAccounts(cs, preferred, now))| <= 1 <==> OneAccount(cs, p)
  {
    var accounts := AllAccounts(cs, preferred, now);
    Sorting.FilterAtMostOne(p, accounts);
    if OneAccount(cs, p) {
      forall g, g' | 0 <= g < g' < |accounts| ensures !(p(accounts[g]) && p(accounts[g'])) {
        if p(accounts[g]) && p(accounts[g']) { OneAccountKept(cs, p, g, g', preferred, now); }
      }
    }
    if |Sorting.Filter(p, accounts)| <= 1 {
      forall i, j | 0 <= i < j < |cs| && p(cs[i]) && p(cs[j])
        ensures AccountKey(cs[i]) == AccountKey(cs[j]) && AccountKey(cs[i]) != ""
      {
        OneAccountLeft(cs, p, i, j, preferred, now);
      }
    }
  }

  /** Being of one account does not depend on the order of the list. */
  lemma OneAccountPermutes(a: seq<Credential>, b: seq<Credential>, p: Credential -> bool)
    requires multiset(a) == multiset(b) && OneAccount(a, p)
    ensures OneAccount(b, p)
  {
    forall i, j | 0 <= i < j < |b| && p(b[i]) && p(b[j])
      ensures AccountKey(b[i]) == AccountKey(b[j]) && AccountKey(b[i]) != ""
    {
      Sorting.RepeatedPositions(a, b[i]);
      Sorting.RepeatedPositions(a, b[j]);
      Sorting.RepeatedPositions(b, b[i]);
      Sorting.RepeatedPositions(b, b[j]);
      var x :| 0 <= x < |a| && a[x] == b[i];
      var y :| 0 <= y < |a| && a[y] == b[j];
      if x == y {
        var u, v :| 0 <= u < v < |a| && a[u] == b[i] && a[v] == b[i];
      }
    }
  }

  /** A sole account with property `p` is unbeaten among all credentials with it. */
  lemma SoleAccountUnbeaten(cs: seq<Credential>, p: Credential -> bool, i: nat, preferred: string, now: Time)
    requires UpClosed(p, preferred, now) && |Sorting.Filter(p, AllAccounts(cs, preferred, now))| == 1
    requires i < |cs| && p(cs[i])
    ensures !PreferCredential(cs[i], Sorting.Filter(p, AllAccounts(cs, preferred, now))[0], preferred, now)
  {
    var accounts := AllAccounts(cs, preferred, now);
    var g := Represented(cs, i, preferred, now);
    Sorting.FilterSole(p, accounts, accounts[g]);
  }

  // ---- Choosing an instance ----

  function Usable(now: Time): Credential -> bool {
    (c: Credential) => !NeedsReconnect(c, now)
  }

  function UsablePreferred(preferred: string, now: Time): Credential -> bool {
    (c: Credential) => !NeedsReconnect(c, now) && IsPreferred(c.qualifier, preferred)
  }

  predicate Anything(c: Credential) {
    true
  }

  lemma ChoicesAreUpClosed(preferred: string, now: Time)
    ensures UpClosed(Usable(now), preferred, now)
    ensures UpClosed(UsablePreferred(preferred, now), preferred, now)
    ensures UpClosed(Anything, preferred, now)
  {
  }

  /** The answer for a list without nils: the instance and whether one was found. */
  function ChooseInstance(cs: seq<Credential>, preferred: string, now: Time): (string, bool) {
    var accounts := AllAccounts(cs, preferred, now);
    var usable := Sorting.Filter(Usable(now), accounts);
    if Sorting.Filter(UsablePreferred(preferred, now), accounts) != [] then (TrimSpace(preferred), true)
    else if |usable| == 1 then (TrimSpace(usable[0].qualifier), true)
    else if |usable| > 1 || |accounts| != 1 then ("", false)
    else (TrimSpace(accounts[0].qualifier), true)
  }

  lemma {:induction false} FilterAnything(s: seq<Credential>)
    ensures Sorting.Filter(Anything, s) == s
  {
    if s != [] {
      FilterAnything(s[1..]);
      assert s == [s[0]] + s[1..];
    }
  }

  /** Sole accounts found in two orders of one list agree on the qualifier. */
  lemma SoleAccountsAgree(a: seq<Credential>, b: seq<Credential>, p: Credential -> bool, preferred: string, now: Time)
    requires multiset(a) == multiset(b) && UpClosed(p, preferred, now)
    requires |Sorting.Filter(p, AllAccounts(a, preferred, now))| == 1
    requires |Sorting.Filter(p, AllAccounts(b, preferred, now))| == 1
    ensures Sorting.Filter(p, AllAccounts(a, preferred, now))[0].qualifier
            == Sorting.Filter(p, AllAccounts(b, preferred, now))[0].qualifier
  {
    var fa := Sorting.Filter(p, AllAccounts(a, preferred, now));
    var fb := Sorting.Filter(p, AllAccounts(b, preferred, now));
    assert fa[0] in fa && fb[0] in fb;
    AccountsHave(a, p, preferred, now);
    AccountsHave(b, p, preferred, now);
    Sorting.SameElements(a, b);
    assert fa[0] in b && fb[0] in a;
    var i :| 0 <= i < |a| && a[i] == fb[0];
    var j :| 0 <= j < |b| && b[j] == fa[0];
    SoleAccountUnbeaten(a, p, i, preferred, now);
    SoleAccountUnbeaten(b, p, j, preferred, now);
    PreferTies(CandidateOf(fa[0], now), CandidateOf(fb[0], now), preferred);
  }

  lemma SameAccountCount(a: seq<Credential>, b: seq<Credential>, p: Credential -> bool, preferred: string, now: Time)
    requires multiset(a) == multiset(b) && UpClosed(p, preferred, now)
    ensures var fa := Sorting.Filter(p, AllAccounts(a, preferred, now));
            var fb := Sorting.Filter(p, AllAccounts(b, preferred, now));
            (fa == [] <==> fb == []) && (|fa| == 1 <==> |fb| == 1)
  {
    Sorting.SameElements(a, b);
    AccountsHave(a, p, preferred, now);
    AccountsHave(b, p, preferred, now);
    NonEmptyFilter(p, AllAccounts(a, preferred, now));
    NonEmptyFilter(p, AllAccounts(b, preferred, now));
    AtMostOneAccount(a, p, preferred, now);
    AtMostOneAccount(b, p, preferred, now);
    if OneAccount(a, p) { OneAccountPermutes(a, b, p); }
    if OneAccount(b, p) { OneAccountPermutes(b, a, p); }
  }

  lemma NonEmptyFilter(p: Credential -> bool, s: seq<Credential>)
    ensures Sorting.Filter(p, s) != [] <==> exists x :: x in s && p(x)
  {
    var f := Sorting.Filter(p, s);
    if f != [] { assert f[0] in f; }
    if exists x :: x in s && p(x) {
      var x :| x in s && p(x);
      assert x in f;
    }
  }

  /** The answer is the same for every order of the list. */
  lemma ChooseInstancePermutes(a: seq<Credential>, b: seq<Credential>, preferred: string, now: Time)
    requires multiset(a) == multiset(b)
    ensures ChooseInstance(a, preferred, now) == ChooseInstance(b, preferred, now)
  {
    ChoicesAreUpClosed(preferred, now);
    SameAccountCount(a, b, UsablePreferred(preferred, now), preferred, now);
    SameAccountCount(a, b, Usable(now), preferred, now);
    SameAccountCount(a, b, Anything, preferred, now);
    FilterAnything(AllAccounts(a, preferred, now));
    FilterAnything(AllAccounts(b, preferred, now));
    if |Sorting.Filter(Usable(now), AllAccounts(a, preferred, now))| == 1 {
      SoleAccountsAgree(a, b, Usable(now), preferred, now);
    }
    if |AllAccounts(a, preferred, now)| == 1 {
      SoleAccountsAgree(a, b, Anything, preferred, now);
    }
  }

  /** A usable credential with the preferred qualifier always wins. */
  lemma PreferredInstanceWins(cs: seq<Credential>, c: Credential, preferred: string, now: Time)
    requires c in cs && !NeedsReconnect(c, now) && IsPreferred(c.qualifier, preferred)
    ensures ChooseInstance(cs, preferred, now) == (TrimSpace(preferred), true)
  {
    ChoicesAreUpClosed(preferred, now);
    AccountsHave(cs, UsablePreferred(preferred, now), preferred, now);
    NonEmptyFilter(UsablePreferred(preferred, now), AllAccounts(cs, preferred, now));
    assert UsablePreferred(preferred, now)(c);
  }

  lemma SomeUsable(cs: seq<Credential>, p: Credential -> bool, preferred: string, now: Time) returns (a: Credential)
    requires UpClosed(p, preferred, now) && Sorting.Filter(p, AllAccounts(cs, preferred, now)) != []
    ensures a == Sorting.Filter(p, AllAccounts(cs, preferred, now))[0] && a in cs && p(a)
  {
    var found := Sorting.Filter(p, AllAccounts(cs, preferred, now));
    a := found[0];
    assert a in found;
    AccountsHave(cs, p, preferred, now);
  }

  /** If any credential is usable, an answer names the instance of a usable one from the list. */
  lemma AnswersAreUsable(cs: seq<Credential>, preferred: string, now: Time)
    requires ChooseInstance(cs, preferred, now).1 && exists u :: u in cs && !NeedsReconnect(u, now)
    ensures exists c :: && c in cs && !NeedsReconnect(c, now)
                        && TrimSpace(c.qualifier) == ChooseInstance(cs, preferred, now).0
  {
    ChoicesAreUpClosed(preferred, now);
    var accounts := AllAccounts(cs, preferred, now);
    if Sorting.Filter(UsablePreferred(preferred, now), accounts) != [] {
      var a := SomeUsable(cs, UsablePreferred(preferred, now), preferred, now);
    } else {
      var u :| u in cs && !NeedsReconnect(u, now);
      assert Usable(now)(u);
      AccountsHave(cs, Usable(now), preferred, now);
      NonEmptyFilter(Usable(now), accounts);
      var a := SomeUsable(cs, Usable(now), preferred, now);
    }
  }

  // ---- The answer, read off the list ----

  /** Some credential has property `p`, and all that have it are of one account. */
  ghost predicate SoleAccount(cs: seq<Credential>, p: Credential -> bool) {
    (exists c :: c in cs && p(c)) && OneAccount(cs, p)
  }

  /** The instance is that of a credential with property `p` that no other such credential is preferred over. */
  ghost predicate NamesUnbeaten(cs: seq<Credential>, p: Credential -> bool, preferred: string, now: Time,
                                instance: string)
  {
    exists c :: && c in cs && p(c) && instance == TrimSpace(c.qualifier)
                && forall d :: d in cs && p(d) ==> !PreferCredential(d, c, preferred, now)
  }

  lemma SoleAccountIsCounted(cs: seq<Credential>, p: Credential -> bool, preferred: string, now: Time)
    requires UpClosed(p, preferred, now)
    ensures SoleAccount(cs, p) <==> |Sorting.Filter(p, AllAccounts(cs, preferred, now))| == 1
  {
    AccountsHave(cs, p, preferred, now);
    NonEmptyFilter(p, AllAccounts(cs, preferred, now));
    AtMostOneAccount(cs, p, preferred, now);
  }

  lemma SoleAccountIsNamed(cs: seq<Credential>, p: Credential -> bool, preferred: string, now: Time)
    requires UpClosed(p, preferred, now) && |Sorting.Filter(p, AllAccounts(cs, preferred, now))| == 1
    ensures NamesUnbeaten(cs, p, preferred, now,
                          TrimSpace(Sorting.Filter(p, AllAccounts(cs, preferred, now))[0].qualifier))
  {
    var a := SomeUsable(cs, p, preferred, now);
    forall d | d in cs && p(d) ensures !PreferCredential(d, a, preferred, now) {
      var i :| 0 <= i < |cs| && cs[i] == d;
      SoleAccountUnbeaten(cs, p, i, preferred, now);
    }
  }

  lemma PreferredIsCounted(cs: seq<Credential>, preferred: string, now: Time)
    ensures Sorting.Filter(UsablePreferred(preferred, now), AllAccounts(cs, preferred, now)) != []
            <==> TrimSpace(preferred) != ""
                 && exists c :: c in cs && !NeedsReconnect(c, now) && TrimSpace(c.qualifier) == TrimSpace(preferred)
  {
    var p := UsablePreferred(preferred, now);
    ChoicesAreUpClosed(preferred, now);
    AccountsHave(cs, p, preferred, now);
    NonEmptyFilter(p, AllAccounts(cs, preferred, now));
    if TrimSpace(preferred) != "" {
      if c :| c in cs && !NeedsReconnect(c, now) && TrimSpace(c.qualifier) == TrimSpace(preferred) { assert p(c); }
    }
  }

  /**
   The answer, read off the list: an instance is found exactly when a usable
   credential carries the preferred qualifier, or all usable credentials are of
   one account, or none is usable and all are of one account.
   */
  lemma ChooseInstanceExactly(cs: seq<Credential>, preferred: string, now: Time)
    ensures forall c :: Usable(now)(c) <==> !NeedsReconnect(c, now)
    ensures var (instance, ok) := ChooseInstance(cs, preferred, now);
            var wanted := && TrimSpace(preferred) != ""
                          && exists c :: && c in cs && !NeedsReconnect(c, now)
                                         && TrimSpace(c.qualifier) == TrimSpace(preferred);
            var noneUsable := forall c :: c in cs ==> NeedsReconnect(c, now);
            if wanted then ok && instance == TrimSpace(preferred)
            else if SoleAccount(cs, Usable(now)) then ok && NamesUnbeaten(cs, Usable(now), preferred, now, instance)
            else if noneUsable && SoleAccount(cs, Anything) then
              ok && NamesUnbeaten(cs, Anything, preferred, now, instance)
            else !ok && instance == ""
  {
    var accounts := AllAccounts(cs, preferred, now);
    ChoicesAreUpClosed(preferred, now);
    PreferredIsCounted(cs, preferred, now);
    SoleAccountIsCounted(cs, Usable(now), preferred, now);
    SoleAccountIsCounted(cs, Anything, preferred, now);
    FilterAnything(accounts);
    NoneUsable(cs, preferred, now);
    if SoleAccount(cs, Usable(now)) { SoleAccountIsNamed(cs, Usable(now), preferred, now); }
    if SoleAccount(cs, Anything) { SoleAccountIsNamed(cs, Anything, preferred, now); }
  }

  lemma NoneUsable(cs: seq<Credential>, preferred: string, now: Time)
    ensures (forall c :: c in cs ==> NeedsReconnect(c, now))
            <==> Sorting.Filter(Usable(now), AllAccounts(cs, preferred, now)) == []
  {
    ChoicesAreUpClosed(preferred, now);
    AccountsHave(cs, Usable(now), preferred, now);
    NonEmptyFilter(Usable(now), AllAccounts(cs, preferred, now));
    if c :| c in cs && !NeedsReconnect(c, now) { assert Usable(now)(c); }
  }

  // ---- Choosing as it runs ----

  ghost predicate NoneOf(p: Credential -> bool, s: seq<Credential>, n: nat) {
    n <= |s| && forall j :: 0 <= j < n ==> !p(s[j])
  }

  lemma NoneOfNext(p: Credential -> bool, s: seq<Credential>, n: nat)
    requires n < |s| && NoneOf(p, s, n) && !p(s[n])
    ensures NoneOf(p, s, n + 1)
  {
  }

  lemma NoneFiltered(p: Credential -> bool, s: seq<Credential>)
    requires NoneOf(p, s, |s|)
    ensures Sorting.Filter(p, s) == []
  {
    NonEmptyFilter(p, s);
  }

  lemma SomeFiltered(p: Credential -> bool, s: seq<Credential>, i: nat)
    requires i < |s| && p(s[i])
    ensures Sorting.Filter(p, s) != []
  {
    NonEmptyFilter(p, s);
  }

  method FindUsablePreferred(accounts: seq<Credential>, preferred: string, now: Time) returns (found: bool)
    ensures found <==> Sorting.Filter(UsablePreferred(preferred, now), accounts) != []
  {
    ghost var wanted := UsablePreferred(preferred, now);
    var qualifier := TrimSpace(preferred);
    if qualifier == "" {
      assert NoneOf(wanted, accounts, |accounts|);
      NoneFiltered(wanted, accounts);
      return false;
    }
    for i := 0 to |accounts|
      invariant NoneOf(wanted, accounts, i)
    {
      if TrimSpace(accounts[i].qualifier) == qualifier && !NeedsReconnect(accounts[i], now) {
        SomeFiltered(wanted, accounts, i);
        return true;
      }
      NoneOfNext(wanted, accounts, i);
    }
    NoneFiltered(wanted, accounts);
    return false;
  }

  method CollectUsable(accounts: seq<Credential>, now: Time) returns (usable: seq<Credential>)
    ensures usable == Sorting.Filter(Usable(now), accounts)
  {
    ghost var keep := Usable(now);
    usable := [];
    for i := 0 to |accounts|
      invariant usable == Sorting.Filter(keep, accounts[..i])
    {
      Sorting.FilterNext(keep, accounts, i);
      if !NeedsReconnect(accounts[i], now) {
        usable := usable + [accounts[i]];
      }
    }
    assert accounts[..|accounts|] == accounts;
  }

  method ChooseCredentialInstance(credentials: seq<Option<Credential>>, preferred: string, now: Time)
    returns (instance: string, ok: bool)
    ensures (instance, ok) == ChooseInstance(NonNil(credentials), preferred, now)
  {
    var accounts := GroupCredentialAccounts(credentials, preferred, now);
    var found := FindUsablePreferred(accounts, preferred, now);
    if found {
      return TrimSpace(preferred), true;
    }
    var usable := CollectUsable(accounts, now);
    if |usable| == 1 {
      return TrimSpace(usable[0].qualifier), true;
    }
    if |usable| > 1 || |accounts| != 1 {
      return "", false;
    }
    return TrimSpace(accounts[0].qualifier), true;
  }

  lemma {:induction false} NonNilCount(xs: seq<Option<Credential>>, n: nat, c: Credential)
    requires n <= |xs|
    ensures multiset(NonNilUpTo(xs, n))[c] == multiset(xs[..n])[Some(c)]
  {
    if n > 0 {
      assert xs[..n] == xs[..n - 1] + [xs[n - 1]];
      NonNilCount(xs, n - 1, c);
    }
  }

  /** Nils in the list do not make the answer depend on its order either. */
  lemma ChooseCredentialInstancePermutes(xs: seq<Option<Credential>>, ys: seq<Option<Credential>>,
                                         preferred: string, now: Time)
    requires multiset(xs) == multiset(ys)
    ensures ChooseInstance(NonNil(xs), preferred, now) == ChooseInstance(NonNil(ys), preferred, now)
  {
    forall c ensures multiset(NonNil(xs))[c] == multiset(NonNil(ys))[c] {
      NonNilCount(xs, |xs|, c);
      NonNilCount(ys, |ys|, c);
      assert xs[..|xs|] == xs && ys[..|ys|] == ys;
    }
    assert multiset(NonNil(xs)) == multiset(NonNil(ys));
    ChooseInstancePermutes(NonNil(xs), NonNil(ys), preferred, now);
  }

  // ---- Choosing within one account ----

  function Prefers(preferred: string, now: Time): (Credential, Credential) -> bool {
    (a: Credential, b: Credential) => PreferCredential(a, b, preferred, now)
  }

  lemma PrefersOrder(preferred: string, now: Time)
    ensures Sorting.StrictWeakOrder(Prefers(preferred, now))
  {
    var better := Prefers(preferred, now);
    forall a, b ensures !(better(a, b) && better(b, a)) {
      PreferAsymmetric(CandidateOf(a, now), CandidateOf(b, now), preferred);
    }
    forall a, b, c | better(a, c) ensures better(a, b) || better(b, c) {
      if !better(a, b) && !better(b, c) {
        UnbeatenTransitive(CandidateOf(c, now), CandidateOf(b, now), CandidateOf(a, now), preferred);
      }
    }
  }

  /** The position a scan of a whole list settles on. */
  function Chosen(cs: seq<Credential>, preferred: string, now: Time): (p: nat)
    requires cs != []
    ensures p < |cs|
  {
    Sorting.Scan(Prefers(preferred, now), cs)
  }

  function ChosenCredential(cs: seq<Credential>, preferred: string, now: Time): Option<Credential> {
    if cs == [] then None else Some(cs[Chosen(cs, preferred, now)])
  }

  lemma ChosenStep(cs: seq<Credential>, c: Credential, preferred: string, now: Time)
    ensures var before := ChosenCredential(cs, preferred, now);
            ChosenCredential(cs + [c], preferred, now)
            == if before.None? || PreferCredential(c, before.value, preferred, now) then Some(c) else before
  {
    assert (cs + [c])[..|cs|] == cs;
  }

  method ChooseCredential(credentials: seq<Option<Credential>>, preferred: string, now: Time)
    returns (chosen: Option<Credential>)
    ensures chosen == ChosenCredential(NonNil(credentials), preferred, now)
  {
    chosen := None;
    for i := 0 to |credentials|
      invariant chosen == ChosenCredential(NonNilUpTo(credentials, i), preferred, now)
    {
      if credentials[i].Some? {
        ChosenStep(NonNilUpTo(credentials, i), credentials[i].value, preferred, now);
        if chosen.None? || PreferCredential(credentials[i].value, chosen.value, preferred, now) {
          chosen := credentials[i];
        }
      }
    }
  }

  /** The choice is the earliest credential that no other is preferred over. */
  lemma ChosenIsFirstUnbeaten(cs: seq<Credential>, preferred: string, now: Time)
    requires cs != []
    ensures Sorting.FirstBest(Prefers(preferred, now), cs, Chosen(cs, preferred, now))
  {
    PrefersOrder(preferred, now);
    Sorting.ScanFindsFirstBest(Prefers(preferred, now), cs);
  }

  function WithMarkedGrant(c: Credential, at: Time): Credential {
    if c.grant.Some? then c.(grant := Some(Marked(c.grant.value, at))) else c
  }

  lemma MarkingOnlyWorsens(c: Credential, other: Credential, at: Time, preferred: string, now: Time)
    ensures var better := Prefers(preferred, now);
            && (better(WithMarkedGrant(c, at), other) ==> better(c, other))
            && (better(other, c) ==> better(other, WithMarkedGrant(c, at)))
  {
  }

  lemma WorseLoserKeepsFirstBest(better: (Credential, Credential) -> bool, cs: seq<Credential>, cs': seq<Credential>,
                                 j: nat, p: nat)
    requires Sorting.FirstBest(better, cs, p) && j < |cs| == |cs'| && j != p && cs' == cs[j := cs'[j]]
    requires better(cs'[j], cs[p]) ==> better(cs[j], cs[p])
    requires better(cs[p], cs[j]) ==> better(cs[p], cs'[j])
    ensures Sorting.FirstBest(better, cs', p)
  {
    assert forall k :: 0 <= k < |cs| && k != j ==> cs'[k] == cs[k];
  }

  /** Marking the grant of a credential that was not chosen never changes the choice. */
  lemma MarkingLosersKeepsChoice(cs: seq<Credential>, j: nat, at: Time, preferred: string, now: Time)
    requires j < |cs| && j != Chosen(cs, preferred, now)
    ensures Chosen(cs[j := WithMarkedGrant(cs[j], at)], preferred, now) == Chosen(cs, preferred, now)
  {
    var p := Chosen(cs, preferred, now);
    var cs' := cs[j := WithMarkedGrant(cs[j], at)];
    ChosenIsFirstUnbeaten(cs, preferred, now);
    ChosenIsFirstUnbeaten(cs', preferred, now);
    MarkingOnlyWorsens(cs[j], cs[p], at, preferred, now);
    WorseLoserKeepsFirstBest(Prefers(preferred, now), cs, cs', j, p);
    Sorting.FirstBestUnique(Prefers(preferred, now), cs', p, Chosen(cs', preferred, now));
  }

  // ---- Grouping again changes nothing ----

  ghost predicate AllStart(keys: seq<string>) {
    forall i {:trigger Starts(keys, i)} :: 0 <= i < |keys| ==> Starts(keys, i)
  }

  lemma AccountsGrow(cs: seq<Credential>, n: nat, preferred: string, now: Time)
    requires AllStart(AccountKeys(cs)) && n < |cs|
    ensures Accounts(cs, n + 1, preferred, now) == Accounts(cs, n, preferred, now) + [cs[n]]
  {
    assert Starts(AccountKeys(cs), n);
    AccountsStart(cs, n, preferred, now);
  }

  /** What grows by one element of `s` at a time is its prefix. */
  lemma {:induction false} GrowsToPrefix<T>(grown: nat -> seq<T>, s: seq<T>, n: nat)
    requires n <= |s| && grown(0) == [] && forall k :: 0 <= k < |s| ==> grown(k + 1) == grown(k) + [s[k]]
    ensures grown(n) == s[..n]
  {
    if n > 0 {
      GrowsToPrefix(grown, s, n - 1);
      assert grown(n - 1 + 1) == grown(n - 1) + [s[n - 1]];
    }
  }

  function AccountsUpTo(cs: seq<Credential>, preferred: string, now: Time): nat -> seq<Credential> {
    (n: nat) => if n <= |cs| then Accounts(cs, n, preferred, now) else []
  }

  lemma AllStartAccounts(cs: seq<Credential>, preferred: string, now: Time)
    requires AllStart(AccountKeys(cs))
    ensures AllAccounts(cs, preferred, now) == cs
  {
    var grown := AccountsUpTo(cs, preferred, now);
    forall k | 0 <= k < |cs| ensures grown(k + 1) == grown(k) + [cs[k]] { AccountsGrow(cs, k, preferred, now); }
    GrowsToPrefix(grown, cs, |cs|);
    assert cs[..|cs|] == cs;
  }

  lemma GroupingIsIdempotent(cs: seq<Credential>, preferred: string, now: Time)
    ensures var accounts := AllAccounts(cs, preferred, now); AllAccounts(accounts, preferred, now) == accounts
  {
    var accounts, keys := AllAccounts(cs, preferred, now), AccountKeys(cs);
    var hs := Heads(keys, |cs|);
    HeadsAreStarts(keys, |cs|);
    forall g | 0 <= g < |accounts| ensures Starts(AccountKeys(accounts), g) {
      var b := AccountIsUnbeaten(cs, g, preferred, now);
      forall g' | 0 <= g' < g
        ensures AccountKeys(accounts)[g'] != AccountKeys(accounts)[g] || AccountKeys(accounts)[g] == ""
      {
        var b' := AccountIsUnbeaten(cs, g', preferred, now);
        assert hs[g'] < hs[g];
      }
    }
    AllStartAccounts(accounts, preferred, now);
  }
}

/** Grouping stored credentials into logical accounts, in two passes over candidates and in one over credentials. */
module Grouping {
  import opened Wrappers
  import opened Text
  import opened Credentials
  import Sorting

  // ---- Accounts among a list of keys ----

  /** Two positions belong to one account: a blank key proves nothing about identity. */
  predicate SameAccount(keys: seq<string>, i: nat, j: nat)
    requires i < |keys| && j < |keys|
  {
    i == j || (keys[i] == keys[j] && keys[i] != "")
  }

  /** Position `i` is the first of its account. */
  predicate Starts(keys: seq<string>, i: nat)
    requires i < |keys|
  {
    keys[i] == "" || keys[i] !in keys[..i]
  }

  /** The first positions of the accounts among the first `n` keys, in order. */
  function Heads(keys: seq<string>, n: nat): (hs: seq<nat>)
    requires n <= |keys|
    ensures forall g :: 0 <= g < |hs| ==> hs[g] < n && Starts(keys, hs[g])
  {
    if n == 0 then []
    else if Starts(keys, n - 1) then Heads(keys, n - 1) + [n - 1]
    else Heads(keys, n - 1)
  }

  lemma {:induction false} HeadsAreStarts(keys: seq<string>, n: nat)
    requires n <= |keys|
    ensures forall i :: 0 <= i < n && Starts(keys, i) ==> i in Heads(keys, n)
    ensures forall g, g' :: 0 <= g < g' < |Heads(keys, n)| ==> Heads(keys, n)[g] < Heads(keys, n)[g']
  {
    if n > 0 { HeadsAreStarts(keys, n - 1); }
  }

  /** The positions below `n` in the account of position `h`, in order. */
  function Members(keys: seq<string>, h: nat, n: nat): (ms: seq<nat>)
    requires h < |keys| && n <= |keys|
    ensures forall i: nat :: i in ms <==> i < n && SameAccount(keys, h, i)
  {
    if n == 0 then []
    else if SameAccount(keys, h, n - 1) then Members(keys, h, n - 1) + [n - 1]
    else Members(keys, h, n - 1)
  }

  lemma {:induction false} MembersIncrease(keys: seq<string>, h: nat, n: nat)
    requires h < |keys| && n <= |keys|
    ensures forall a, b :: 0 <= a < b < |Members(keys, h, n)| ==> Members(keys, h, n)[a] < Members(keys, h, n)[b]
  {
    if n > 0 {
      MembersIncrease(keys, h, n - 1);
      var ms := Members(keys, h, n - 1);
      assert forall i :: 0 <= i < |ms| ==> ms[i] in ms;
    }
  }

  ghost predicate Below(ms: seq<nat>, n: nat) {
    forall a :: 0 <= a < |ms| ==> ms[a] < n
  }

  ghost predicate ValidGroups(groups: seq<seq<nat>>, n: nat) {
    forall g :: 0 <= g < |groups| ==> groups[g] != [] && Below(groups[g], n)
  }

  function Groups(keys: seq<string>, n: nat): (groups: seq<seq<nat>>)
    requires n <= |keys|
    ensures |groups| == |Heads(keys, n)|
    ensures forall g :: 0 <= g < |groups| ==> groups[g] == Members(keys, Heads(keys, n)[g], n)
    ensures ValidGroups(groups, n)
  {
    var hs := Heads(keys, n);
    assert forall g :: 0 <= g < |hs| ==> hs[g] in Members(keys, hs[g], n) && Below(Members(keys, hs[g], n), n) by {
      forall g, a | 0 <= g < |hs| && 0 <= a < |Members(keys, hs[g], n)| ensures Members(keys, hs[g], n)[a] < n {
        assert Members(keys, hs[g], n)[a] in Members(keys, hs[g], n);
      }
    }
    seq(|hs|, g requires 0 <= g < |hs| => Members(keys, hs[g], n))
  }

  /** The position that started the account of `i`. */
  lemma {:induction false} HeadOf(keys: seq<string>, i: nat) returns (h: nat)
    requires i < |keys|
    ensures h <= i && Starts(keys, h) && SameAccount(keys, h, i)
  {
    if Starts(keys, i) {
      h := i;
    } else {
      var j :| 0 <= j < i && keys[..i][j] == keys[i];
      h := HeadOf(keys, j);
    }
  }

  lemma HeadsDistinct(keys: seq<string>, h: nat, h': nat)
    requires h < |keys| && h' < |keys| && Starts(keys, h) && Starts(keys, h') && SameAccount(keys, h, h')
    ensures h == h'
  {
  }

  /**
   The groups partition the positions: each position is in exactly one, and two
   positions share one exactly when they are equal or share a non-blank key.
   */
  lemma GroupsPartition(keys: seq<string>, i: nat, j: nat)
    requires i < |keys| && j < |keys|
    ensures exists g :: 0 <= g < |Groups(keys, |keys|)| && i in Groups(keys, |keys|)[g]
    ensures forall g, g' :: 0 <= g < |Groups(keys, |keys|)| && 0 <= g' < |Groups(keys, |keys|)|
                            && i in Groups(keys, |keys|)[g] && j in Groups(keys, |keys|)[g']
                            ==> (g == g' <==> i == j || (keys[i] == keys[j] && keys[i] != ""))
  {
    var n := |keys|;
    var hs, groups := Heads(keys, n), Groups(keys, n);
    var h := HeadOf(keys, i);
    HeadsAreStarts(keys, n);
    var g :| 0 <= g < |hs| && hs[g] == h;
    assert i in groups[g];
    forall g, g' | 0 <= g < |groups| && 0 <= g' < |groups| && i in groups[g] && j in groups[g']
      ensures g == g' <==> SameAccount(keys, i, j)
    {
      if SameAccount(keys, i, j) { HeadsDistinct(keys, hs[g], hs[g']); }
    }
  }

  // ---- One more position ----

  lemma {:induction false} NoMembers(keys: seq<string>, h: nat, n: nat)
    requires h < |keys| && n <= |keys| && forall i: nat :: i < n ==> !SameAccount(keys, h, i)
    ensures Members(keys, h, n) == []
  {
    if n > 0 { NoMembers(keys, h, n - 1); }
  }

  lemma StartsStep(keys: seq<string>, n: nat)
    requires n < |keys| && Starts(keys, n)
    ensures Groups(keys, n + 1) == Groups(keys, n) + [[n]]
  {
    var hs := Heads(keys, n);
    forall i: nat | i < n ensures !SameAccount(keys, i, n) && !SameAccount(keys, n, i) {
      assert keys[..n][i] == keys[i];
    }
    NoMembers(keys, n, n);
    var groups := Groups(keys, n + 1);
    forall g | 0 <= g < |groups| ensures groups[g] == (Groups(keys, n) + [[n]])[g] {
      assert g < |hs| ==> Heads(keys, n + 1)[g] == hs[g] && !SameAccount(keys, hs[g], n);
    }
  }

  lemma JoinsStep(keys: seq<string>, n: nat, g: nat)
    requires n < |keys| && !Starts(keys, n) && g < |Heads(keys, n)| && SameAccount(keys, Heads(keys, n)[g], n)
    ensures Groups(keys, n + 1) == Groups(keys, n)[g := Groups(keys, n)[g] + [n]]
  {
    var hs := Heads(keys, n);
    HeadsAreStarts(keys, n);
    forall h | 0 <= h < |hs| && SameAccount(keys, hs[h], n) ensures h == g {
      HeadsDistinct(keys, hs[h], hs[g]);
    }
  }

  /** The `seen` map of a grouping loop: each non-blank key so far, with its account. */
  ghost predicate Seen(keys: seq<string>, n: nat, seen: map<string, nat>)
    requires n <= |keys|
  {
    && (forall k :: k in seen ==> k != "" && seen[k] < |Heads(keys, n)| && keys[Heads(keys, n)[seen[k]]] == k)
    && (forall i :: 0 <= i < n && keys[i] != "" ==> keys[i] in seen)
  }

  /** A key is in `seen` exactly when the next position with it does not start an account. */
  lemma SeenStep(keys: seq<string>, n: nat, seen: map<string, nat>)
    requires n < |keys| && Seen(keys, n, seen)
    ensures keys[n] != "" ==> (keys[n] in seen <==> !Starts(keys, n))
    ensures Starts(keys, n) && keys[n] != "" ==> Seen(keys, n + 1, seen[keys[n] := |Heads(keys, n)|])
    ensures keys[n] == "" || !Starts(keys, n) ==> Seen(keys, n + 1, seen)
  {
    if keys[n] in seen {
      assert keys[..n][Heads(keys, n)[seen[keys[n]]]] == keys[n];
    }
  }

  function KeysOf(cs: seq<Candidate>): (keys: seq<string>)
    ensures |keys| == |cs| && forall i :: 0 <= i < |cs| ==> keys[i] == TrimSpace(cs[i].accountKey)
  {
    seq(|cs|, i requires 0 <= i < |cs| => TrimSpace(cs[i].accountKey))
  }

  /** The grouping of candidates has handled the first `n` keys. */
  ghost predicate Placed(keys: seq<string>, n: nat, groups: seq<seq<nat>>, seen: map<string, nat>) {
    n <= |keys| && groups == Groups(keys, n) && Seen(keys, n, seen)
  }

  method PlaceIndex(key: string, index: nat, groups: seq<seq<nat>>, seen: map<string, nat>, ghost keys: seq<string>)
    returns (groups': seq<seq<nat>>, seen': map<string, nat>)
    requires index < |keys| && key == keys[index] && Placed(keys, index, groups, seen)
    ensures Placed(keys, index + 1, groups', seen')
  {
    groups', seen' := groups, seen;
    SeenStep(keys, index, seen);
    if key == "" {
      StartsStep(keys, index);
      groups' := groups + [[index]];
    } else if key !in seen {
      StartsStep(keys, index);
      seen' := seen[key := |groups|];
      groups' := groups + [[index]];
    } else {
      var g := seen[key];
      JoinsStep(keys, index, g);
      groups' := groups[g := groups[g] + [index]];
    }
  }

  method GroupCandidateGroups(cs: seq<Candidate>) returns (groups: seq<seq<nat>>)
    ensures groups == Groups(KeysOf(cs), |cs|)
  {
    ghost var keys := KeysOf(cs);
    groups := [];
    var seen: map<string, nat> := map[];
    for index := 0 to |cs|
      invariant Placed(keys, index, groups, seen)
    {
      groups, seen := PlaceIndex(TrimSpace(cs[index].accountKey), index, groups, seen, keys);
    }
  }

  // ---- The canonical member of a group ----

  const BLANK := Candidate("", "", "", ZERO_TIME, false)

  function At(cs: seq<Candidate>, i: nat): Candidate {
    if i < |cs| then cs[i] else BLANK
  }

  function Better(cs: seq<Candidate>, preferred: string): (nat, nat) -> bool {
    (i: nat, j: nat) => Prefer(At(cs, i), At(cs, j), preferred)
  }

  lemma BetterAt(cs: seq<Candidate>, i: nat, j: nat, preferred: string)
    requires i < |cs| && j < |cs|
    ensures Better(cs, preferred)(i, j) <==> Prefer(cs[i], cs[j], preferred)
  {
  }

  lemma BetterOrder(cs: seq<Candidate>, preferred: string)
    ensures Sorting.StrictWeakOrder(Better(cs, preferred))
  {
    var better := Better(cs, preferred);
    forall i, j ensures !(better(i, j) && better(j, i)) { PreferAsymmetric(At(cs, i), At(cs, j), preferred); }
    forall i, j, k | better(i, k) ensures better(i, j) || better(j, k) {
      if !better(i, j) && !better(j, k) { UnbeatenTransitive(At(cs, k), At(cs, j), At(cs, i), preferred); }
    }
  }

  /** The member a left-to-right scan of a group ends on. */
  function Best(cs: seq<Candidate>, ms: seq<nat>, preferred: string): (b: nat)
    requires ms != []
    ensures b in ms
  {
    ms[Sorting.Scan(Better(cs, preferred), ms)]
  }

  lemma ScanKeepsEarliest(better: (nat, nat) -> bool, ms: seq<nat>, m: nat)
    requires Sorting.StrictWeakOrder(better) && m in ms
    requires forall a, b :: 0 <= a < b < |ms| ==> ms[a] < ms[b]
    ensures var b := ms[Sorting.Scan(better, ms)]; !better(m, b) && (m < b ==> better(b, m))
  {
    Sorting.ScanFindsFirstBest(better, ms);
    var k :| 0 <= k < |ms| && ms[k] == m;
  }

  /** It is the earliest member of its account that no other member is preferred over. */
  lemma BestIsEarliestUnbeaten(cs: seq<Candidate>, h: nat, m: nat, preferred: string)
    requires h < |cs| && m < |cs| && SameAccount(KeysOf(cs), h, m)
    ensures var ms := Members(KeysOf(cs), h, |cs|);
            && ms != []
            && var b := Best(cs, ms, preferred);
               && b < |cs| && SameAccount(KeysOf(cs), h, b)
               && !Prefer(cs[m], cs[b], preferred)
               && (m < b ==> Prefer(cs[b], cs[m], preferred))
  {
    var keys := KeysOf(cs);
    var ms := Members(keys, h, |cs|);
    assert m in ms;
    BetterOrder(cs, preferred);
    MembersIncrease(keys, h, |cs|);
    ScanKeepsEarliest(Better(cs, preferred), ms, m);
  }

  function Bests(cs: seq<Candidate>, groups: seq<seq<nat>>, preferred: string): (r: seq<nat>)
    requires ValidGroups(groups, |cs|)
    ensures |r| == |groups| && forall g :: 0 <= g < |groups| ==> r[g] == Best(cs, groups[g], preferred)
  {
    seq(|groups|, g requires 0 <= g < |groups| => Best(cs, groups[g], preferred))
  }

  method ScanGroup(cs: seq<Candidate>, group: seq<nat>, preferred: string) returns (best: nat)
    requires group != [] && Below(group, |cs|)
    ensures best == Best(cs, group, preferred)
  {
    best := group[0];
    for i := 1 to |group|
      invariant best == Best(cs, group[..i], preferred)
    {
      assert group[..i + 1][..i] == group[..i];
      ghost var p := Sorting.Scan(Better(cs, preferred), group[..i]);
      assert best == group[p] && group[p] < |cs| && group[i] < |cs|;
      BetterAt(cs, group[i], best, preferred);
      if Prefer(cs[group[i]], cs[best], preferred) {
        best := group[i];
      }
    }
    assert group[..|group|] == group;
  }

  method ScanGroups(cs: seq<Candidate>, groups: seq<seq<nat>>, preferred: string) returns (indices: seq<nat>)
    requires ValidGroups(groups, |cs|)
    ensures indices == Bests(cs, groups, preferred)
  {
    ghost var bests := Bests(cs, groups, preferred);
    indices := [];
    for g := 0 to |groups|
      invariant indices == bests[..g]
    {
      var best := ScanGroup(cs, groups[g], preferred);
      indices := indices + [best];
    }
  }

  method GroupCandidateIndices(cs: seq<Candidate>, preferred: string) returns (indices: seq<nat>)
    ensures indices == Bests(cs, Groups(KeysOf(cs), |cs|), preferred)
  {
    var groups := GroupCandidateGroups(cs);
    indices := ScanGroups(cs, groups, preferred);
  }

  // ---- Accounts of credentials ----

  /** The credentials among the first `n` entries that are not nil. */
  function NonNilUpTo(xs: seq<Option<Credential>>, n: nat): (cs: seq<Credential>)
    requires n <= |xs|
  {
    if n == 0 then []
    else if xs[n - 1].Some? then NonNilUpTo(xs, n - 1) + [xs[n - 1].value]
    else NonNilUpTo(xs, n - 1)
  }

  function NonNil(xs: seq<Option<Credential>>): seq<Credential> {
    NonNilUpTo(xs, |xs|)
  }

  function Candidates(cs: seq<Credential>, now: Time): (r: seq<Candidate>)
    ensures |r| == |cs| && forall i :: 0 <= i < |cs| ==> r[i] == CandidateOf(cs[i], now)
  {
    seq(|cs|, i requires 0 <= i < |cs| => CandidateOf(cs[i], now))
  }

  function AccountKeys(cs: seq<Credential>): (keys: seq<string>)
    ensures |keys| == |cs| && forall i :: 0 <= i < |cs| ==> keys[i] == AccountKey(cs[i])
  {
    seq(|cs|, i requires 0 <= i < |cs| => AccountKey(cs[i]))
  }

  lemma CandidateKeys(cs: seq<Credential>, now: Time)
    ensures KeysOf(Candidates(cs, now)) == AccountKeys(cs)
  {
  }

  /** The canonical credentials among the first `n`, as the two-pass form picks them. */
  function Accounts(cs: seq<Credential>, n: nat, preferred: string, now: Time): (accounts: seq<Credential>)
    requires n <= |cs|
    ensures |accounts| == |Heads(AccountKeys(cs), n)|
  {
    var groups := Groups(AccountKeys(cs), n);
    assert forall g :: 0 <= g < |groups| ==> groups[g] != [] && Below(groups[g], n);
    seq(|groups|, g requires 0 <= g < |groups| => cs[Best(Candidates(cs, now), groups[g], preferred)])
  }

  lemma AccountsStart(cs: seq<Credential>, n: nat, preferred: string, now: Time)
    requires n < |cs| && Starts(AccountKeys(cs), n)
    ensures Accounts(cs, n + 1, preferred, now) == Accounts(cs, n, preferred, now) + [cs[n]]
  {
    StartsStep(AccountKeys(cs), n);
  }

  lemma AccountsJoin(cs: seq<Credential>, n: nat, g: nat, preferred: string, now: Time)
    requires n < |cs| && !Starts(AccountKeys(cs), n)
    requires g < |Heads(AccountKeys(cs), n)| && SameAccount(AccountKeys(cs), Heads(AccountKeys(cs), n)[g], n)
    ensures var before := Accounts(cs, n, preferred, now);
            Accounts(cs, n + 1, preferred, now)
            == if Prefer(CandidateOf(cs[n], now), CandidateOf(before[g], now), preferred) then before[g := cs[n]]
               else before
  {
    var keys := AccountKeys(cs);
    JoinsStep(keys, n, g);
    BestStep(Candidates(cs, now), Groups(keys, n)[g], n, preferred);
  }

  lemma BestStep(cs: seq<Candidate>, ms: seq<nat>, n: nat, preferred: string)
    requires ms != [] && Below(ms, |cs|) && n < |cs|
    ensures var b := Best(cs, ms, preferred);
            b < |cs| && Best(cs, ms + [n], preferred) == if Prefer(cs[n], cs[b], preferred) then n else b
  {
    assert (ms + [n])[..|ms|] == ms;
    BetterAt(cs, n, ms[Sorting.Scan(Better(cs, preferred), ms)], preferred);
  }

  lemma {:induction false} NonNilPrefix(xs: seq<Option<Credential>>, i: nat, n: nat)
    requires i <= n <= |xs|
    ensures NonNilUpTo(xs, i) <= NonNilUpTo(xs, n)
    decreases n
  {
    if i < n { NonNilPrefix(xs, i, n - 1); }
  }

  lemma NonNilNext(xs: seq<Option<Credential>>, i: nat)
    requires i < |xs|
    ensures |NonNilUpTo(xs, i + 1)| == |NonNilUpTo(xs, i)| + (if xs[i].Some? then 1 else 0) <= |NonNil(xs)|
    ensures xs[i].Some? ==> NonNil(xs)[|NonNilUpTo(xs, i)|] == xs[i].value
  {
    NonNilPrefix(xs, i + 1, |xs|);
  }

  /** The one-pass grouping has handled the first `n` credentials. */
  ghost predicate Grouped(cs: seq<Credential>, n: nat, accounts: seq<Credential>, seen: map<string, nat>,
                          preferred: string, now: Time)
  {
    n <= |cs| && accounts == Accounts(cs, n, preferred, now) && Seen(AccountKeys(cs), n, seen)
  }

  /** One step of the one-pass grouping: the credential starts an account, or replaces a worse one in place. */
  method PlaceCredential(credential: Credential, accounts: seq<Credential>, seen: map<string, nat>,
                         preferred: string, now: Time, ghost cs: seq<Credential>, ghost n: nat)
    returns (accounts': seq<Credential>, seen': map<string, nat>)
    requires n < |cs| && credential == cs[n]
    requires Grouped(cs, n, accounts, seen, preferred, now)
    ensures Grouped(cs, n + 1, accounts', seen', preferred, now)
  {
    accounts', seen' := accounts, seen;
    SeenStep(AccountKeys(cs), n, seen);
    var key := AccountKey(credential);
    if key == "" {
      AccountsStart(cs, n, preferred, now);
      accounts' := accounts + [credential];
    } else if key !in seen {
      AccountsStart(cs, n, preferred, now);
      seen' := seen[key := |accounts|];
      accounts' := accounts + [credential];
    } else {
      var g := seen[key];
      AccountsJoin(cs, n, g, preferred, now);
      if Prefer(CandidateOf(credential, now), CandidateOf(accounts[g], now), preferred) {
        accounts' := accounts[g := credential];
      }
    }
  }

  ghost predicate GroupedUpTo(credentials: seq<Option<Credential>>, i: nat, accounts: seq<Credential>,
                              seen: map<string, nat>, preferred: string, now: Time)
    requires i <= |credentials|
  {
    Grouped(NonNil(credentials), |NonNilUpTo(credentials, i)|, accounts, seen, preferred, now)
  }

  lemma NothingGrouped(cs: seq<Credential>, preferred: string, now: Time)
    ensures Grouped(cs, 0, [], map[], preferred, now)
  {
  }

  /** The one-pass grouping over a list that may hold nils. */
  method GroupCredentialAccounts(credentials: seq<Option<Credential>>, preferred: string, now: Time)
    returns (accounts: seq<Credential>)
    ensures var cs := NonNil(credentials); accounts == Accounts(cs, |cs|, preferred, now)
  {
    ghost var cs := NonNil(credentials);
    accounts := [];
    var seen: map<string, nat> := map[];
    NothingGrouped(cs, preferred, now);
    for i := 0 to |credentials|
      invariant GroupedUpTo(credentials, i, accounts, seen, preferred, now)
    {
      NonNilNext(credentials, i);
      if credentials[i].Some? {
        ghost var n := |NonNilUpTo(credentials, i)|;
        accounts, seen := PlaceCredential(credentials[i].value, accounts, seen, preferred, now, cs, n);
      }
    }
  }

  /** The one-pass form refines the two-pass form: same credentials, same order. */
  lemma OnePassRefinesTwoPass(cs: seq<Credential>, preferred: string, now: Time)
    ensures var cands := Candidates(cs, now);
            var indices := Bests(cands, Groups(KeysOf(cands), |cands|), preferred);
            var accounts := Accounts(cs, |cs|, preferred, now);
            && |accounts| == |indices|
            && forall g :: 0 <= g < |indices| ==> indices[g] < |cs| && accounts[g] == cs[indices[g]]
  {
    CandidateKeys(cs, now);
    var cands := Candidates(cs, now);
    var groups := Groups(AccountKeys(cs), |cs|);
    forall g | 0 <= g < |groups| ensures Best(cands, groups[g], preferred) < |cs| {
      assert Best(cands, groups[g], preferred) in groups[g];
    }
  }
}

/** Stored credentials, when one needs reconnecting, and the order of preference among them. */
module Credentials {
  import opened Wrappers
  import opened Text

  /** An instant; `ZERO_TIME` is Go's zero time, which means "unknown". */
  type Time = int
  const ZERO_TIME: Time := 0

  const ACCOUNT_KEY := "account_key"

  datatype Grant = Grant(expiresAt: Option<Time>, refreshErrorCount: int)

  /** A stored credential; `metadata` is its decoded MetadataJSON, None when blank or corrupt. */
  datatype Credential = Credential(
    id: string, qualifier: string, accountKey: string, createdAt: Time,
    grant: Option<Grant>, metadata: Option<map<string, string>>)

  datatype Candidate = Candidate(
    accountKey: string, id: string, qualifier: string, createdAt: Time, needsReconnect: bool)

  function AccountKeyFromMetadata(metadata: Option<map<string, string>>): string {
    if metadata.Some? && ACCOUNT_KEY in metadata.value then TrimSpace(metadata.value[ACCOUNT_KEY]) else ""
  }

  /** The typed key is authoritative; the metadata is a fallback. */
  function AccountKey(c: Credential): (key: string)
    ensures Trimmed(key)
  {
    if TrimSpace(c.accountKey) != "" then TrimSpace(c.accountKey) else AccountKeyFromMetadata(c.metadata)
  }

  /** The metadata plays no part exactly when the typed key is not blank. */
  lemma TypedKeyIsAuthoritative(c: Credential)
    ensures (forall metadata :: AccountKey(c.(metadata := metadata)) == AccountKey(c))
            <==> TrimSpace(c.accountKey) != ""
  {
    if TrimSpace(c.accountKey) == "" {
      var a := c.(metadata := Some(map[ACCOUNT_KEY := "a"]));
      var b := c.(metadata := None);
      assert AccountKey(a) == "a" && AccountKey(b) == "";
      assert !(AccountKey(a) == AccountKey(c) && AccountKey(b) == AccountKey(c));
    }
  }

  /** Without a typed key the reserved metadata entry is the key, and without that there is none. */
  lemma MetadataKey(c: Credential)
    requires TrimSpace(c.accountKey) == ""
    ensures c.metadata.Some? && "account_key" in c.metadata.value ==>
              AccountKey(c) == TrimSpace(c.metadata.value["account_key"])
    ensures c.metadata.None? || "account_key" !in c.metadata.value ==> AccountKey(c) == ""
  {
  }

  predicate GrantNeedsReconnect(g: Grant, now: Time) {
    g.expiresAt.Some? && g.refreshErrorCount > 0 && g.expiresAt.value <= now
  }

  predicate NeedsReconnect(c: Credential, now: Time) {
    c.grant.Some? && GrantNeedsReconnect(c.grant.value, now)
  }

  /** A credential needs reconnecting exactly when its grant has expired and refreshing it has failed. */
  lemma NeedsReconnectExactly(c: Credential, now: Time)
    ensures c.grant == None ==> !NeedsReconnect(c, now)
    ensures c.grant.Some? && c.grant.value.expiresAt == None ==> !NeedsReconnect(c, now)
    ensures c.grant.Some? && c.grant.value.expiresAt.Some? ==>
              (NeedsReconnect(c, now) <==> c.grant.value.expiresAt.value <= now && c.grant.value.refreshErrorCount >= 1)
  {
  }

  function CandidateOf(c: Credential, now: Time): Candidate {
    Candidate(AccountKey(c), c.id, c.qualifier, c.createdAt, NeedsReconnect(c, now))
  }

  // ---- Preference ----

  predicate IsPreferred(qualifier: string, preferred: string) {
    TrimSpace(preferred) != "" && TrimSpace(qualifier) == TrimSpace(preferred)
  }

  /** `candidate` is to replace `current`: six criteria, each deciding only when the earlier ones tie. */
  predicate Prefer(candidate: Candidate, current: Candidate, preferred: string) {
    if candidate.needsReconnect != current.needsReconnect then !candidate.needsReconnect
    else if IsPreferred(candidate.qualifier, preferred) != IsPreferred(current.qualifier, preferred)
    then IsPreferred(candidate.qualifier, preferred)
    else if (candidate.createdAt == ZERO_TIME) != (current.createdAt == ZERO_TIME) then candidate.createdAt != ZERO_TIME
    else if candidate.createdAt != current.createdAt then candidate.createdAt < current.createdAt
    else if candidate.id != current.id then Less(candidate.id, current.id)
    else Less(candidate.qualifier, current.qualifier)
  }

  /** Agreement on every field the order looks at. */
  predicate SameRank(a: Candidate, b: Candidate) {
    && a.needsReconnect == b.needsReconnect
    && a.qualifier == b.qualifier
    && a.createdAt == b.createdAt
    && a.id == b.id
  }

  /** The two agree on whether they carry the preferred qualifier. */
  predicate AlikePreferred(a: Candidate, b: Candidate, preferred: string) {
    || TrimSpace(preferred) == ""
    || (TrimSpace(a.qualifier) == TrimSpace(preferred) <==> TrimSpace(b.qualifier) == TrimSpace(preferred))
  }

  /**
   What wins, criterion by criterion: usable over not, the preferred qualifier
   over any other, a known creation time over none, the older, then the smaller
   id, then the smaller qualifier.
   */
  lemma PreferenceOrder(a: Candidate, b: Candidate, preferred: string)
    ensures !a.needsReconnect && b.needsReconnect ==> Prefer(a, b, preferred)
    ensures (&& a.needsReconnect == b.needsReconnect && TrimSpace(preferred) != ""
             && TrimSpace(a.qualifier) == TrimSpace(preferred) != TrimSpace(b.qualifier)) ==> Prefer(a, b, preferred)
    ensures var alike := a.needsReconnect == b.needsReconnect && AlikePreferred(a, b, preferred);
            var sameAge := alike && a.createdAt == b.createdAt;
            && (alike && a.createdAt != ZERO_TIME && b.createdAt == ZERO_TIME ==> Prefer(a, b, preferred))
            && (alike && ZERO_TIME !in {a.createdAt, b.createdAt} && a.createdAt < b.createdAt ==>
                  Prefer(a, b, preferred))
            && (sameAge && Less(a.id, b.id) ==> Prefer(a, b, preferred))
            && (sameAge && a.id == b.id && Less(a.qualifier, b.qualifier) ==> Prefer(a, b, preferred))
  {
    LessIrreflexive(a.id);
  }

  lemma PreferAsymmetric(a: Candidate, b: Candidate, preferred: string)
    ensures !(Prefer(a, b, preferred) && Prefer(b, a, preferred))
  {
    LessAsymmetric(a.id, b.id);
    LessAsymmetric(a.qualifier, b.qualifier);
  }

  /** Neither is preferred exactly when they agree on every ranking field. */
  lemma PreferTies(a: Candidate, b: Candidate, preferred: string)
    ensures !Prefer(a, b, preferred) && !Prefer(b, a, preferred) <==> SameRank(a, b)
  {
    LessTotal(a.id, b.id);
    LessTotal(a.qualifier, b.qualifier);
    LessIrreflexive(a.qualifier);
  }

  lemma PreferTransitive(a: Candidate, b: Candidate, c: Candidate, preferred: string)
    requires Prefer(a, b, preferred) && Prefer(b, c, preferred)
    ensures Prefer(a, c, preferred)
  {
    if a.id != b.id && b.id != c.id && Less(a.id, b.id) && Less(b.id, c.id) {
      LessTransitive(a.id, b.id, c.id);
      LessIrreflexive(a.id);
    }
    if Less(a.qualifier, b.qualifier) && Less(b.qualifier, c.qualifier) {
      LessTransitive(a.qualifier, b.qualifier, c.qualifier);
    }
  }

  /** The order is a strict weak one: not being beaten is transitive. */
  lemma UnbeatenTransitive(a: Candidate, b: Candidate, c: Candidate, preferred: string)
    requires !Prefer(b, a, preferred) && !Prefer(c, b, preferred)
    ensures !Prefer(c, a, preferred)
  {
    if Prefer(c, a, preferred) {
      PreferTies(a, b, preferred);
      PreferTies(b, c, preferred);
      if Prefer(a, b, preferred) {
        PreferTransitive(c, a, b, preferred);
      }
      // Otherwise a and b tie, so whatever beats one beats the other.
      assert false;
    }
  }

  // ---- Marking a grant ----

  function Marked(g: Grant, now: Time): Grant {
    Grant(if g.expiresAt.None? || g.expiresAt.value > now then Some(now) else g.expiresAt,
          if g.refreshErrorCount < 1 then 1 else g.refreshErrorCount)
  }

  /** Marking makes a grant need reconnecting now and ever after, and marking it again changes nothing. */
  lemma MarkedNeedsReconnect(g: Grant, now: Time, later: Time)
    requires now <= later
    ensures GrantNeedsReconnect(Marked(g, now), later)
    ensures Marked(Marked(g, now), later) == Marked(g, now)
    ensures Marked(g, now) == g <==> GrantNeedsReconnect(g, now)
  {
  }

  /** The stored grant, updated through its pointer. */
  class ExternalCredentialGrant {
    var expiresAt: Option<Time>
    var refreshErrorCount: int

    function View(): Grant
      reads this
    {
      Grant(expiresAt, refreshErrorCount)
    }

    constructor (g: Grant)
      ensures View() == g
    {
      expiresAt, refreshErrorCount := g.expiresAt, g.refreshErrorCount;
    }
  }

  method MarkGrantReconnectRequired(grant: ExternalCredentialGrant?, now: Time) returns (changed: bool)
    modifies grant
    ensures grant == null ==> !changed
    ensures grant != null ==> grant.View() == Marked(old(grant.View()), now)
    ensures grant != null ==> (changed <==> grant.View() != old(grant.View()))
    ensures grant != null ==> GrantNeedsReconnect(grant.View(), now)
  {
    if grant == null {
      return false;
    }
    changed := false;
    if grant.refreshErrorCount < 1 {
      grant.refreshErrorCount := 1;
      changed := true;
    }
    if grant.expiresAt.None? || grant.expiresAt.value > now {
      grant.expiresAt := Some(now);
      changed := true;
    }
  }
}

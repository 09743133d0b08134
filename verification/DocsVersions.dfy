/** SDK versions the docs publisher accepts, and their order. */
module DocsVersions {
  import opened Wrappers

  datatype Language = Python | TypeScript

  /** `rank` is 0 for alpha, 1 for beta, 2 for a release candidate and 3 for a release. */
  datatype Version = Version(major: nat, minor: nat, patch: nat, rank: nat, phase: nat)

  predicate AtLeast(v: Version, w: Version) {
    if v.major != w.major then v.major > w.major
    else if v.minor != w.minor then v.minor > w.minor
    else if v.patch != w.patch then v.patch > w.patch
    else if v.rank != w.rank then v.rank > w.rank
    else v.phase >= w.phase
  }

  function Parts(v: Version): seq<nat> {
    [v.major, v.minor, v.patch, v.rank, v.phase]
  }

  /** The first part that differs decides, and the greater is the later version. */
  lemma FirstDifferenceDecides(v: Version, w: Version, k: nat)
    requires k < 5 && (forall i :: 0 <= i < k ==> Parts(v)[i] == Parts(w)[i]) && Parts(v)[k] != Parts(w)[k]
    ensures AtLeast(v, w) <==> Parts(v)[k] > Parts(w)[k]
  {
    assert k > 0 ==> Parts(v)[0] == Parts(w)[0];
    assert k > 1 ==> Parts(v)[1] == Parts(w)[1];
    assert k > 2 ==> Parts(v)[2] == Parts(w)[2];
    assert k > 3 ==> Parts(v)[3] == Parts(w)[3];
  }

  /** The order is total: two versions are each at least the other exactly when they are the same. */
  lemma AtLeastIsTotalOrder(u: Version, v: Version, w: Version)
    ensures AtLeast(v, w) || AtLeast(w, v)
    ensures AtLeast(v, w) && AtLeast(w, v) <==> v == w
    ensures AtLeast(u, v) && AtLeast(v, w) ==> AtLeast(u, w)
  {
  }

  // ---- Numbers ----

  predicate IsDigit(c: char) {
    '0' <= c <= '9'
  }

  predicate AllDigits(s: string) {
    forall i :: 0 <= i < |s| ==> IsDigit(s[i])
  }

  function Value(s: string): nat
    requires AllDigits(s)
  {
    if s == "" then 0 else 10 * Value(s[..|s| - 1]) + (s[|s| - 1] as int - '0' as int)
  }

  predicate NoDigitFirst(s: string) {
    s != "" ==> !IsDigit(s[0])
  }

  function DigitCount(s: string): (n: nat)
    ensures n <= |s| && AllDigits(s[..n]) && NoDigitFirst(s[n..])
  {
    if s == "" || !IsDigit(s[0]) then 0 else 1 + DigitCount(s[1..])
  }

  lemma {:induction false} DigitCountOf(digits: string, rest: string)
    requires AllDigits(digits) && NoDigitFirst(rest)
    ensures DigitCount(digits + rest) == |digits|
  {
    if digits == "" {
      assert digits + rest == rest;
    } else {
      assert (digits + rest)[1..] == digits[1..] + rest;
      DigitCountOf(digits[1..], rest);
    }
  }

  /** A number at the front, as many digits as there are, and what follows it. */
  function TakeNumber(s: string): Option<(nat, string)> {
    var n := DigitCount(s);
    if n == 0 then None else Some((Value(s[..n]), s[n..]))
  }

  function TakeText(text: string, s: string): Option<string> {
    if text <= s then Some(s[|text|..]) else None
  }

  ghost predicate Spells(digits: string, n: nat) {
    digits != "" && AllDigits(digits) && Value(digits) == n
  }

  lemma TakeNumberOf(digits: string, n: nat, rest: string)
    requires Spells(digits, n) && NoDigitFirst(rest)
    ensures TakeNumber(digits + rest) == Some((n, rest))
  {
    DigitCountOf(digits, rest);
    assert (digits + rest)[..|digits|] == digits && (digits + rest)[|digits|..] == rest;
  }

  lemma TakenNumber(s: string) returns (digits: string)
    requires TakeNumber(s).Some?
    ensures Spells(digits, TakeNumber(s).value.0) && s == digits + TakeNumber(s).value.1
    ensures NoDigitFirst(TakeNumber(s).value.1)
  {
    digits := s[..DigitCount(s)];
  }

  // ---- Versions ----

  /** How each language marks the phases before a release. */
  function PhaseText(l: Language, rank: nat): string
    requires rank < 3
  {
    match l
    case Python => if rank == 0 then "a" else if rank == 1 then "b" else "rc"
    case TypeScript => if rank == 0 then "-alpha." else if rank == 1 then "-beta." else "-rc."
  }

  function TakePhase(l: Language, s: string): Option<(nat, string)> {
    if TakeText(PhaseText(l, 0), s).Some? then Some((0, TakeText(PhaseText(l, 0), s).value))
    else if TakeText(PhaseText(l, 1), s).Some? then Some((1, TakeText(PhaseText(l, 1), s).value))
    else if TakeText(PhaseText(l, 2), s).Some? then Some((2, TakeText(PhaseText(l, 2), s).value))
    else None
  }

  /** The part after the patch number: nothing, or a phase and its number. */
  function ParsePhase(l: Language, s: string): Option<(nat, nat)> {
    if s == "" then Some((3, 0))
    else
      var phase := TakePhase(l, s);
      if phase.None? then None
      else
        var number := TakeNumber(phase.value.1);
        if number.None? || number.value.1 != "" then None else Some((phase.value.0, number.value.0))
  }

  function TakeDotted(s: string): Option<(nat, string)> {
    var number := TakeNumber(s);
    if number.None? then None
    else
      var rest := TakeText(".", number.value.1);
      if rest.None? then None else Some((number.value.0, rest.value))
  }

  function ParseVersion(l: Language, s: string): Option<Version> {
    var major := TakeDotted(s);
    if major.None? then None
    else
      var minor := TakeDotted(major.value.1);
      if minor.None? then None
      else
        var patch := TakeNumber(minor.value.1);
        if patch.None? then None
        else
          var phase := ParsePhase(l, patch.value.1);
          if phase.None? then None
          else Some(Version(major.value.0, minor.value.0, patch.value.0, phase.value.0, phase.value.1))
  }

  // ---- What a version string is ----

  ghost predicate SpellsPhase(l: Language, s: string, rank: nat, phase: nat) {
    || (rank == 3 && phase == 0 && s == "")
    || (rank < 3 && exists digits :: Spells(digits, phase) && s == PhaseText(l, rank) + digits)
  }

  ghost predicate SpellsVersion(l: Language, s: string, v: Version, a: string, b: string, c: string, tail: string) {
    && s == a + "." + (b + "." + (c + tail))
    && Spells(a, v.major) && Spells(b, v.minor) && Spells(c, v.patch) && SpellsPhase(l, tail, v.rank, v.phase)
  }

  lemma TextOf(text: string, s: string, rest: string)
    ensures TakeText(text, s) == Some(rest) <==> s == text + rest
  {
    if s == text + rest { assert s[|text|..] == rest; }
    if text <= s { assert s == text + s[|text|..]; }
  }

  /** Of the three phase texts of a language at most one starts a string. */
  lemma TakePhaseExact(l: Language, s: string, rank: nat, rest: string)
    ensures TakePhase(l, s) == Some((rank, rest)) <==> rank < 3 && s == PhaseText(l, rank) + rest
  {
    TextOf(PhaseText(l, 0), s, rest);
    TextOf(PhaseText(l, 1), s, rest);
    TextOf(PhaseText(l, 2), s, rest);
    var i := if l.Python? then 0 else 1;
    assert PhaseText(l, 0)[i] == 'a' && PhaseText(l, 1)[i] == 'b' && PhaseText(l, 2)[i] == 'r';
    assert forall k :: 0 <= k < 3 && PhaseText(l, k) <= s ==> s[i] == PhaseText(l, k)[i];
  }

  lemma ParsedPhase(l: Language, s: string, rank: nat, phase: nat)
    requires ParsePhase(l, s) == Some((rank, phase))
    ensures SpellsPhase(l, s, rank, phase)
  {
    if s != "" {
      var rest := TakePhase(l, s).value.1;
      TakePhaseExact(l, s, rank, rest);
      var digits := TakenNumber(rest);
      assert rest == digits + "" == digits;
    }
  }

  lemma ParsePhaseOf(l: Language, s: string, rank: nat, phase: nat)
    requires SpellsPhase(l, s, rank, phase)
    ensures ParsePhase(l, s) == Some((rank, phase))
  {
    if rank < 3 {
      var digits :| Spells(digits, phase) && s == PhaseText(l, rank) + digits;
      TakePhaseExact(l, s, rank, digits);
      assert digits + "" == digits;
      TakeNumberOf(digits, phase, "");
    }
  }

  lemma PhaseStartsNoDigit(l: Language, s: string, rank: nat, phase: nat)
    requires SpellsPhase(l, s, rank, phase)
    ensures NoDigitFirst(s)
  {
    if rank < 3 {
      assert PhaseText(l, rank) <= s;
      assert s[0] == PhaseText(l, rank)[0];
    }
  }

  lemma TakeDottedOf(digits: string, n: nat, rest: string)
    requires Spells(digits, n)
    ensures TakeDotted(digits + "." + rest) == Some((n, rest))
  {
    assert digits + "." + rest == digits + ("." + rest);
    TakeNumberOf(digits, n, "." + rest);
    assert ("." + rest)[1..] == rest;
  }

  lemma TakenDotted(s: string) returns (digits: string)
    requires TakeDotted(s).Some?
    ensures Spells(digits, TakeDotted(s).value.0) && s == digits + "." + TakeDotted(s).value.1
  {
    digits := TakenNumber(s);
  }

  lemma ParsedVersion(l: Language, s: string, v: Version) returns (a: string, b: string, c: string, tail: string)
    requires ParseVersion(l, s) == Some(v)
    ensures SpellsVersion(l, s, v, a, b, c, tail)
  {
    a := TakenDotted(s);
    var rest := TakeDotted(s).value.1;
    b := TakenDotted(rest);
    var rest' := TakeDotted(rest).value.1;
    c := TakenNumber(rest');
    tail := TakeNumber(rest').value.1;
    ParsedPhase(l, tail, v.rank, v.phase);
  }

  lemma ParseVersionOf(l: Language, s: string, v: Version, a: string, b: string, c: string, tail: string)
    requires SpellsVersion(l, s, v, a, b, c, tail)
    ensures ParseVersion(l, s) == Some(v)
  {
    PhaseStartsNoDigit(l, tail, v.rank, v.phase);
    ParsePhaseOf(l, tail, v.rank, v.phase);
    TakeNumberOf(c, v.patch, tail);
    TakeDottedOf(b, v.minor, c + tail);
    TakeDottedOf(a, v.major, b + "." + (c + tail));
  }

  /** Parsing accepts exactly the strings of the version grammar, and yields the numbers they spell. */
  lemma ParseVersionExact(l: Language, s: string, v: Version)
    ensures ParseVersion(l, s) == Some(v) <==> exists a, b, c, tail :: SpellsVersion(l, s, v, a, b, c, tail)
  {
    if ParseVersion(l, s) == Some(v) {
      var a, b, c, tail := ParsedVersion(l, s, v);
    }
    if a, b, c, tail :| SpellsVersion(l, s, v, a, b, c, tail) {
      ParseVersionOf(l, s, v, a, b, c, tail);
    }
  }

  lemma VersionStartsWithDigit(l: Language, s: string)
    requires ParseVersion(l, s).Some?
    ensures s != "" && IsDigit(s[0])
  {
    var digits := TakenNumber(s);
  }

  // ---- The order of version strings ----

  /** A number as it is written in decimal. */
  function Decimal(n: nat): string {
    if n < 10 then ["0123456789"[n]] else Decimal(n / 10) + ["0123456789"[n % 10]]
  }

  /** Reading a decimal number gives the number. */
  lemma {:induction false} ValueOfDecimal(n: nat)
    ensures Spells(Decimal(n), n)
  {
    DigitValue(n % 10);
    if n < 10 {
      var s := ["0123456789"[n]];
      assert s[..0] == "";
      assert Value(s) == 10 * Value(s[..0]) + (s[0] as int - '0' as int);
    } else {
      ValueOfDecimal(n / 10);
      var s := Decimal(n);
      assert s[..|s| - 1] == Decimal(n / 10);
    }
  }

  lemma DigitValue(d: nat)
    requires d < 10
    ensures IsDigit("0123456789"[d]) && "0123456789"[d] as int - '0' as int == d
  {
  }

  datatype Phase = Alpha | Beta | Candidate

  /** A release, and a pre-release, as each language writes them. */
  function ReleaseText(a: nat, b: nat, c: nat): string {
    Decimal(a) + "." + (Decimal(b) + "." + (Decimal(c) + ""))
  }

  function PreReleaseText(l: Language, a: nat, b: nat, c: nat, phase: Phase, n: nat): string {
    var mark := match (l, phase)
      case (Python, Alpha) => "a"
      case (Python, Beta) => "b"
      case (Python, Candidate) => "rc"
      case (TypeScript, Alpha) => "-alpha."
      case (TypeScript, Beta) => "-beta."
      case (TypeScript, Candidate) => "-rc.";
    Decimal(a) + "." + (Decimal(b) + "." + (Decimal(c) + (mark + Decimal(n))))
  }

  lemma ReleaseParses(l: Language, a: nat, b: nat, c: nat)
    ensures ParseVersion(l, ReleaseText(a, b, c)) == Some(Version(a, b, c, 3, 0))
  {
    ValueOfDecimal(a);
    ValueOfDecimal(b);
    ValueOfDecimal(c);
    assert SpellsPhase(l, "", 3, 0);
    ParseVersionOf(l, ReleaseText(a, b, c), Version(a, b, c, 3, 0), Decimal(a), Decimal(b), Decimal(c), "");
  }

  lemma PreReleaseParses(l: Language, a: nat, b: nat, c: nat, phase: Phase, n: nat)
    ensures ParseVersion(l, PreReleaseText(l, a, b, c, phase, n)) == Some(Version(a, b, c, RankOf(phase), n))
  {
    var rank := RankOf(phase);
    ValueOfDecimal(a);
    ValueOfDecimal(b);
    ValueOfDecimal(c);
    ValueOfDecimal(n);
    var tail := PhaseText(l, rank) + Decimal(n);
    assert SpellsPhase(l, tail, rank, n);
    ParseVersionOf(l, PreReleaseText(l, a, b, c, phase, n), Version(a, b, c, rank, n),
                   Decimal(a), Decimal(b), Decimal(c), tail);
  }

  /** Both parse, and the second is the strictly later version. */
  predicate Later(l: Language, s: string, t: string) {
    && ParseVersion(l, s).Some? && ParseVersion(l, t).Some?
    && AtLeast(ParseVersion(l, t).value, ParseVersion(l, s).value)
    && !AtLeast(ParseVersion(l, s).value, ParseVersion(l, t).value)
  }

  lemma LaterBy(l: Language, s: string, t: string, v: Version, w: Version)
    requires ParseVersion(l, s) == Some(v) && ParseVersion(l, t) == Some(w) && AtLeast(w, v) && v != w
    ensures Later(l, s, t)
  {
    AtLeastIsTotalOrder(v, v, w);
  }

  /** Of one release: alphas come before betas, betas before candidates, and those before the release itself. */
  lemma PhasesAscend(l: Language, a: nat, b: nat, c: nat, m: nat, n: nat)
    ensures Later(l, PreReleaseText(l, a, b, c, Alpha, m), PreReleaseText(l, a, b, c, Beta, n))
    ensures Later(l, PreReleaseText(l, a, b, c, Beta, m), PreReleaseText(l, a, b, c, Candidate, n))
    ensures Later(l, PreReleaseText(l, a, b, c, Candidate, m), ReleaseText(a, b, c))
  {
    PhaseBeforePhase(l, a, b, c, Alpha, m, Beta, n);
    PhaseBeforePhase(l, a, b, c, Beta, m, Candidate, n);
    PhaseBeforeRelease(l, a, b, c, Candidate, m);
  }

  function RankOf(phase: Phase): nat {
    match phase case Alpha => 0 case Beta => 1 case Candidate => 2
  }

  lemma PhaseBeforePhase(l: Language, a: nat, b: nat, c: nat, p: Phase, m: nat, q: Phase, n: nat)
    requires RankOf(p) < RankOf(q)
    ensures Later(l, PreReleaseText(l, a, b, c, p, m), PreReleaseText(l, a, b, c, q, n))
  {
    PreReleaseParses(l, a, b, c, p, m);
    PreReleaseParses(l, a, b, c, q, n);
    LaterBy(l, PreReleaseText(l, a, b, c, p, m), PreReleaseText(l, a, b, c, q, n),
            Version(a, b, c, RankOf(p), m), Version(a, b, c, RankOf(q), n));
  }

  /** Every pre-release comes before its release. */
  lemma PhaseBeforeRelease(l: Language, a: nat, b: nat, c: nat, p: Phase, m: nat)
    ensures Later(l, PreReleaseText(l, a, b, c, p, m), ReleaseText(a, b, c))
  {
    PreReleaseParses(l, a, b, c, p, m);
    ReleaseParses(l, a, b, c);
    LaterBy(l, PreReleaseText(l, a, b, c, p, m), ReleaseText(a, b, c),
            Version(a, b, c, RankOf(p), m), Version(a, b, c, 3, 0));
  }

  /** Between releases the first number that differs decides, compared as a number and not as text. */
  lemma ReleasesAscend(l: Language, a: nat, b: nat, c: nat, a': nat, b': nat, c': nat)
    requires a < a' || (a == a' && b < b') || (a == a' && b == b' && c < c')
    ensures Later(l, ReleaseText(a, b, c), ReleaseText(a', b', c'))
  {
    ReleaseParses(l, a, b, c);
    ReleaseParses(l, a', b', c');
    LaterBy(l, ReleaseText(a, b, c), ReleaseText(a', b', c'), Version(a, b, c, 3, 0), Version(a', b', c', 3, 0));
  }
}

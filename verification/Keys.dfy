/**
 IndexedDB keys and their W3C ordering: number < date < string < binary < array,
 arrays element by element with a proper prefix first.
 */
module Keys {
  import opened Wrappers
  import Text

  /** A key with the numeric Go types (and bool, as 0 and 1) identified by value. */
  datatype Key =
    | Number(value: real)
    | Date(nanos: int)
    | String(chars: string)
    | Binary(bytes: seq<nat>)
    | Array(parts: seq<Key>)

  function Kind(k: Key): int {
    match k
    case Number(_) => 0
    case Date(_) => 1
    case String(_) => 2
    case Binary(_) => 3
    case Array(_) => 4
  }

  /** `utf16.Encode`: astral scalar values become surrogate pairs. */
  function Utf16(s: string): seq<int> {
    if s == [] then []
    else
      var c := s[0] as int;
      (if c < 0x10000 then [c]
       else [0xD800 + (c - 0x10000) / 0x400, 0xDC00 + (c - 0x10000) % 0x400]) + Utf16(s[1..])
  }

  function CompareInts(a: int, b: int): int {
    if a < b then -1 else if a > b then 1 else 0
  }

  /** The loop of `compareUTF16Strings`, and `bytes.Compare`. */
  function CompareUnits(a: seq<int>, b: seq<int>): int {
    if a == [] || b == [] then CompareInts(|a|, |b|)
    else if a[0] != b[0] then CompareInts(a[0], b[0])
    else CompareUnits(a[1..], b[1..])
  }

  function CompareKeys(a: Key, b: Key): (r: int)
    decreases a, 1
  {
    if Kind(a) != Kind(b) then CompareInts(Kind(a), Kind(b))
    else match a
      case Number(v) => if v < b.value then -1 else if v > b.value then 1 else 0
      case Date(n) => CompareInts(n, b.nanos)
      case String(s) => CompareUnits(Utf16(s), Utf16(b.chars))
      case Binary(bs) => CompareUnits(bs, b.bytes)
      case Array(ps) => CompareArrays(ps, b.parts)
  }

  function CompareArrays(a: seq<Key>, b: seq<Key>): (r: int)
    decreases a, 0
  {
    if a == [] then (if b == [] then 0 else -1)
    else if b == [] then 1
    else
      var c := CompareKeys(a[0], b[0]);
      if c != 0 then c else CompareArrays(a[1..], b[1..])
  }

  // ---- The comparison is a total preorder ----

  lemma {:induction false} UnitsAntisymmetric(a: seq<int>, b: seq<int>)
    ensures CompareUnits(a, b) in {-1, 0, 1}
    ensures CompareUnits(b, a) == -CompareUnits(a, b)
  {
    if a != [] && b != [] { UnitsAntisymmetric(a[1..], b[1..]); }
  }

  lemma {:induction false} UnitsTransitive(a: seq<int>, b: seq<int>, c: seq<int>)
    requires CompareUnits(a, b) <= 0 && CompareUnits(b, c) <= 0
    ensures CompareUnits(a, c) <= 0
    ensures CompareUnits(a, c) == 0 <==> CompareUnits(a, b) == 0 && CompareUnits(b, c) == 0
  {
    if a != [] && b != [] && c != [] && a[0] == b[0] == c[0] {
      UnitsTransitive(a[1..], b[1..], c[1..]);
    }
  }

  /** Swapping the arguments flips the sign; in particular every key equals itself. */
  lemma {:induction false} KeyAntisymmetric(a: Key, b: Key)
    ensures CompareKeys(a, b) in {-1, 0, 1}
    ensures CompareKeys(b, a) == -CompareKeys(a, b)
    decreases a, 1
  {
    match (a, b)
    case (String(s), String(t)) => UnitsAntisymmetric(Utf16(s), Utf16(t));
    case (Binary(s), Binary(t)) => UnitsAntisymmetric(s, t);
    case (Array(ps), Array(qs)) => ArrayAntisymmetric(ps, qs);
    case _ =>
  }

  lemma {:induction false} ArrayAntisymmetric(a: seq<Key>, b: seq<Key>)
    ensures CompareArrays(a, b) in {-1, 0, 1}
    ensures CompareArrays(b, a) == -CompareArrays(a, b)
    decreases a, 0
  {
    if a != [] && b != [] {
      KeyAntisymmetric(a[0], b[0]);
      ArrayAntisymmetric(a[1..], b[1..]);
    }
  }

  /** The comparison is transitive, and strict as soon as one step is strict. */
  lemma {:induction false} KeyTransitive(a: Key, b: Key, c: Key)
    requires CompareKeys(a, b) <= 0 && CompareKeys(b, c) <= 0
    ensures CompareKeys(a, c) <= 0
    ensures CompareKeys(a, c) == 0 <==> CompareKeys(a, b) == 0 && CompareKeys(b, c) == 0
    decreases a, 1
  {
    match (a, b, c)
    case (String(s), String(t), String(u)) => UnitsTransitive(Utf16(s), Utf16(t), Utf16(u));
    case (Binary(s), Binary(t), Binary(u)) => UnitsTransitive(s, t, u);
    case (Array(ps), Array(qs), Array(rs)) => ArrayTransitive(ps, qs, rs);
    case _ =>
  }

  lemma {:induction false} ArrayTransitive(a: seq<Key>, b: seq<Key>, c: seq<Key>)
    requires CompareArrays(a, b) <= 0 && CompareArrays(b, c) <= 0
    ensures CompareArrays(a, c) <= 0
    ensures CompareArrays(a, c) == 0 <==> CompareArrays(a, b) == 0 && CompareArrays(b, c) == 0
    decreases a, 0
  {
    if a != [] {
      KeyTransitive(a[0], b[0], c[0]);
      if CompareKeys(a[0], c[0]) == 0 { ArrayTransitive(a[1..], b[1..], c[1..]); }
    }
  }

  /** Keys that compare equal are interchangeable on the left of any comparison. */
  lemma KeyCongruent(a: Key, b: Key, c: Key)
    requires CompareKeys(a, b) == 0
    ensures CompareKeys(a, c) == CompareKeys(b, c)
  {
    KeyAntisymmetric(a, b);
    KeyAntisymmetric(a, c);
    KeyAntisymmetric(b, c);
    if CompareKeys(b, c) <= 0 { KeyTransitive(a, b, c); } else { KeyTransitive(c, b, a); }
  }

  // ---- What the comparison decides ----

  /** Across kinds: numbers before dates, dates before strings, strings before binary keys, those before arrays. */
  lemma KindsDecide(a: Key, b: Key)
    ensures a.Number? && !b.Number? ==> CompareKeys(a, b) == -1
    ensures a.Date? && (b.String? || b.Binary? || b.Array?) ==> CompareKeys(a, b) == -1
    ensures a.String? && (b.Binary? || b.Array?) ==> CompareKeys(a, b) == -1
    ensures a.Binary? && b.Array? ==> CompareKeys(a, b) == -1
  {
  }

  /** Numbers and dates: the smaller comes first, and only equal ones compare equal. */
  lemma ValuesDecide(x: real, y: real, i: int, j: int)
    ensures CompareKeys(Number(x), Number(y)) < 0 <==> x < y
    ensures CompareKeys(Date(i), Date(j)) < 0 <==> i < j
  {
  }

  /** Sequences of units: the first that differs decides, and a proper prefix comes first. */
  lemma {:induction false} UnitsDecide(a: seq<int>, b: seq<int>, k: nat)
    requires k <= |a| && k <= |b| && a[..k] == b[..k]
    ensures k < |a| && k < |b| && a[k] < b[k] ==> CompareUnits(a, b) == -1
    ensures k == |a| < |b| ==> CompareUnits(a, b) == -1
    ensures k == |a| == |b| ==> CompareUnits(a, b) == 0
  {
    if k > 0 {
      assert a[0] == a[..k][0] == b[..k][0] == b[0];
      assert a[1..][..k - 1] == a[..k][1..] == b[..k][1..] == b[1..][..k - 1];
      UnitsDecide(a[1..], b[1..], k - 1);
    }
  }

  /** Strings compare by their UTF-16 units, binary keys by their bytes. */
  lemma TextsDecide(s: string, t: string, x: seq<nat>, y: seq<nat>, k: nat)
    ensures && k < |Utf16(s)| && k < |Utf16(t)| && Utf16(s)[..k] == Utf16(t)[..k] && Utf16(s)[k] < Utf16(t)[k] ==>
              CompareKeys(String(s), String(t)) == -1
    ensures k < |x| && k < |y| && x[..k] == y[..k] && x[k] < y[k] ==> CompareKeys(Binary(x), Binary(y)) == -1
    ensures k == |x| < |y| && x == y[..k] ==> CompareKeys(Binary(x), Binary(y)) == -1
  {
    if k <= |Utf16(s)| && k <= |Utf16(t)| && Utf16(s)[..k] == Utf16(t)[..k] { UnitsDecide(Utf16(s), Utf16(t), k); }
    var u: seq<int>, v: seq<int> := x, y;
    if k <= |u| && k <= |v| && u[..k] == v[..k] { UnitsDecide(u, v, k); }
  }

  /** Arrays: the first part that compares different decides, and a proper prefix comes first. */
  lemma {:induction false} PartsDecide(a: seq<Key>, b: seq<Key>, k: nat)
    requires k <= |a| && k <= |b| && forall i :: 0 <= i < k ==> CompareKeys(a[i], b[i]) == 0
    ensures k < |a| && k < |b| && CompareKeys(a[k], b[k]) != 0 ==>
              CompareKeys(Array(a), Array(b)) == CompareKeys(a[k], b[k])
    ensures k == |a| < |b| ==> CompareKeys(Array(a), Array(b)) == -1
    ensures k == |a| == |b| ==> CompareKeys(Array(a), Array(b)) == 0
  {
    if k > 0 {
      forall i | 0 <= i < k - 1 ensures CompareKeys(a[1..][i], b[1..][i]) == 0 {
        assert a[1..][i] == a[i + 1] && b[1..][i] == b[i + 1];
      }
      PartsDecide(a[1..], b[1..], k - 1);
    }
  }

  /** The code points that UTF-16 units stand for. */
  function CodePoints(units: seq<int>): seq<int> {
    if units == [] then []
    else if 0xD800 <= units[0] < 0xDC00 && |units| > 1 && 0xDC00 <= units[1] < 0xE000 then
      [0x10000 + 0x400 * (units[0] - 0xD800) + (units[1] - 0xDC00)] + CodePoints(units[2..])
    else [units[0]] + CodePoints(units[1..])
  }

  /** The units of a string stand for exactly its characters, and fit 16 bits. */
  lemma {:induction false} Utf16Decodes(s: string)
    ensures CodePoints(Utf16(s)) == seq(|s|, i requires 0 <= i < |s| => s[i] as int)
    ensures forall i :: 0 <= i < |Utf16(s)| ==> 0 <= Utf16(s)[i] < 0x10000
  {
    if s != [] {
      Utf16Decodes(s[1..]);
      var c, rest := s[0] as int, Utf16(s[1..]);
      if c < 0x10000 {
        assert Utf16(s) == [c] + rest;
        assert ([c] + rest)[1..] == rest;
      } else {
        var hi, lo := 0xD800 + (c - 0x10000) / 0x400, 0xDC00 + (c - 0x10000) % 0x400;
        assert Utf16(s) == [hi, lo] + rest;
        assert ([hi, lo] + rest)[2..] == rest;
      }
    }
  }

  lemma {:induction false} SameUnits(a: seq<int>, b: seq<int>)
    ensures CompareUnits(a, b) == 0 <==> a == b
  {
    if a != [] && b != [] {
      SameUnits(a[1..], b[1..]);
      assert a == [a[0]] + a[1..] && b == [b[0]] + b[1..];
    }
  }

  lemma SameText(s: string, t: string)
    ensures Utf16(s) == Utf16(t) <==> s == t
  {
    Utf16Decodes(s);
    Utf16Decodes(t);
    if Utf16(s) == Utf16(t) {
      var points := CodePoints(Utf16(s));
      assert |points| == |s| == |t|;
      assert forall i :: 0 <= i < |s| ==> points[i] == s[i] as int == t[i] as int;
    }
  }

  /** Only the same key compares equal. */
  lemma {:induction false} EqualExactly(a: Key, b: Key)
    ensures CompareKeys(a, b) == 0 <==> a == b
    decreases a, 1
  {
    match (a, b)
    case (String(s), String(t)) =>
      SameUnits(Utf16(s), Utf16(t));
      SameText(s, t);
    case (Binary(s), Binary(t)) => SameUnits(s, t);
    case (Array(ps), Array(qs)) => EqualArrays(ps, qs);
    case _ =>
  }

  lemma {:induction false} EqualArrays(a: seq<Key>, b: seq<Key>)
    ensures CompareArrays(a, b) == 0 <==> a == b
    decreases a, 0
  {
    if a != [] && b != [] {
      EqualExactly(a[0], b[0]);
      EqualArrays(a[1..], b[1..]);
      assert a == [a[0]] + a[1..] && b == [b[0]] + b[1..];
    }
  }

  // ---- Queries ----

  /** A key on the wire: absent, undecodable, or a key. */
  datatype Bound = Absent | Undecodable | At(key: Key)

  datatype KeyRange = KeyRange(lower: Bound, lowerOpen: bool, upper: Bound, upperOpen: bool)

  datatype Query =
    | Exactly(target: Bound)
    | Within(range: Option<KeyRange>)
    | Unset

  datatype QueryError = BadKey | RangeRequired

  predicate BelowRange(key: Key, lower: Key, lowerOpen: bool) {
    if lowerOpen then CompareKeys(key, lower) <= 0 else CompareKeys(key, lower) < 0
  }

  predicate AboveRange(key: Key, upper: Key, upperOpen: bool) {
    if upperOpen then CompareKeys(key, upper) >= 0 else CompareKeys(key, upper) > 0
  }

  function KeyInRange(key: Key, kr: KeyRange): Result<bool, QueryError> {
    if kr.lower.Undecodable? then Failure(BadKey)
    else if kr.lower.At? && BelowRange(key, kr.lower.key, kr.lowerOpen) then Success(false)
    else if kr.upper.Undecodable? then Failure(BadKey)
    else if kr.upper.At? && AboveRange(key, kr.upper.key, kr.upperOpen) then Success(false)
    else Success(true)
  }

  function MatchQuery(key: Key, query: Query): Result<bool, QueryError> {
    match query
    case Exactly(At(k)) => Success(CompareKeys(key, k) == 0)
    case Exactly(_) => Failure(BadKey)
    case Within(None) => Failure(RangeRequired)
    case Within(Some(kr)) => KeyInRange(key, kr)
    case Unset => Success(true)
  }

  /** Which keys a range with decodable bounds holds: those at or after its lower and at or before its upper bound. */
  lemma InRangeExactly(key: Key, kr: KeyRange)
    requires !kr.lower.Undecodable? && !kr.upper.Undecodable?
    ensures KeyInRange(key, kr) == Success(
              && (kr.lower.At? ==> CompareKeys(kr.lower.key, key) < (if kr.lowerOpen then 0 else 1))
              && (kr.upper.At? ==> CompareKeys(key, kr.upper.key) < (if kr.upperOpen then 0 else 1)))
  {
    if kr.lower.At? { KeyAntisymmetric(key, kr.lower.key); }
    if kr.upper.At? { KeyAntisymmetric(key, kr.upper.key); }
  }

  /** What a query asks: a key equal to its own, one in its range, or any key; and which queries cannot be answered. */
  lemma MatchExactly(key: Key, query: Query)
    ensures query.Unset? ==> MatchQuery(key, query) == Success(true)
    ensures query.Exactly? && query.target.At? ==>
              MatchQuery(key, query) == Success(CompareKeys(query.target.key, key) == 0)
    ensures query.Exactly? && !query.target.At? ==> MatchQuery(key, query) == Failure(BadKey)
    ensures query.Within? && query.range.None? ==> MatchQuery(key, query) == Failure(RangeRequired)
    ensures query.Within? && query.range.Some? ==> MatchQuery(key, query) == KeyInRange(key, query.range.value)
  {
    if query.Exactly? && query.target.At? { KeyAntisymmetric(key, query.target.key); }
  }

  /** A lower bound that cannot be decoded fails; an upper one fails for every key not already below the range. */
  lemma UndecodableBounds(key: Key, kr: KeyRange)
    ensures kr.lower.Undecodable? ==> KeyInRange(key, kr) == Failure(BadKey)
    ensures !kr.lower.Undecodable? && kr.upper.Undecodable? ==>
              KeyInRange(key, kr) == if KeyInRange(key, kr.(upper := Absent)) == Success(true) then Failure(BadKey)
                                     else Success(false)
  {
  }

  /** A query cannot tell apart two keys that compare equal. */
  lemma MatchQueryCongruent(a: Key, b: Key, query: Query)
    requires CompareKeys(a, b) == 0
    ensures MatchQuery(a, query) == MatchQuery(b, query)
  {
    match query
    case Exactly(At(k)) => KeyCongruent(a, b, k);
    case Within(Some(kr)) =>
      if kr.lower.At? { KeyCongruent(a, b, kr.lower.key); }
      if kr.upper.At? { KeyCongruent(a, b, kr.upper.key); }
    case _ =>
  }

  // ---- Infinite numbers leave the order ----

  /**
   A native Go value used as a key, with the text `fmt.Sprint` gives it. A
   number that is not finite has no exact rational value, so it is no key kind
   and falls back to comparing texts.
   */
  datatype NativeKey =
    | Regular(key: Key, text: string)
    | Infinite(positive: bool)

  function SprintText(k: NativeKey): string {
    match k
    case Regular(_, text) => text
    case Infinite(positive) => if positive then "+Inf" else "-Inf"
  }

  function CompareNative(a: NativeKey, b: NativeKey): (r: int) {
    if a.Regular? && b.Regular? then CompareKeys(a.key, b.key)
    else if Text.Less(SprintText(a), SprintText(b)) then -1
    else if Text.Less(SprintText(b), SprintText(a)) then 1
    else 0
  }

  /** Decimal texts: a minus sign exactly when the number carries one, as negative zero does, and then a digit. */
  predicate DecimalText(n: real, text: string) {
    || (n >= 0.0 && |text| > 0 && '0' <= text[0] <= '9')
    || (n <= 0.0 && |text| > 1 && text[0] == '-' && '0' <= text[1] <= '9')
  }

  /**
   W3C orders every finite number strictly between the two infinities. The code
   does so for exactly one pairing: negative infinity against a number without a
   minus sign.
   */
  lemma InfinityOrder(positive: bool, n: real, text: string)
    requires DecimalText(n, text)
    ensures CompareNative(Infinite(positive), Regular(Number(n), text)) == (if positive then 1 else -1)
            <==> !positive && text[0] != '-'
  {
    var inf := SprintText(Infinite(positive));
    assert inf[1..][0] == 'I';
    assert Text.Less(inf, text) <==> inf[0] < text[0] || (inf[0] == text[0] && Text.Less(inf[1..], text[1..]));
    assert Text.Less(text, inf) <==> text[0] < inf[0] || (inf[0] == text[0] && Text.Less(text[1..], inf[1..]));
  }

  /** Where the order is wrong: positive infinity below the other and below one, the other above negative zero. */
  lemma InfinityMisplaced()
    ensures CompareNative(Infinite(true), Infinite(false)) == -1
    ensures CompareNative(Infinite(true), Regular(Number(1.0), "1")) == -1
    ensures CompareNative(Infinite(false), Regular(Number(0.0), "-0")) == 1
  {
    InfinityOrder(true, 1.0, "1");
    InfinityOrder(false, 0.0, "-0");
    Text.LessTotal("+Inf", "1");
    Text.LessTotal("-Inf", "-0");
    assert "+Inf"[0] < "-Inf"[0];
  }

  /** With an infinite number among them keys can even be ordered in a circle. */
  lemma InfinityCycle()
    ensures var five, empty, inf := Regular(Number(5.0), "5"), Regular(String(""), ""), Infinite(true);
            CompareNative(five, empty) < 0 && CompareNative(empty, inf) < 0 && CompareNative(inf, five) < 0
  {
    assert Text.Less("+Inf", "5") by { assert "+Inf"[0] < "5"[0]; }
  }
}

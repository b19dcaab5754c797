/** The public identifiers `<prefix>_<sqid>`: the prefix registry, generation, shape test and UUID test. */
module PublicId {
  import opened Arithmetic
  import opened Collections

  datatype AggregateType =
    | Person | Tenant | Project | Client | Vendor | OrgUnit | ResourcePool | CaseRecord | TimesheetWeek
    | LeaveRequest | Notification | DomainEvent | Skill | PeriodLock | PersonCostRate | ProjectBudget
    | ProjectRisk | ProjectRagSnapshot | EmploymentEvent | Contact | BudgetApproval | PlannerScenario
    | LeavePolicy | DmEscalation | ProjectPosition

  function Prefix(t: AggregateType): string {
    match t
    case Person => "usr"
    case Tenant => "tnt"
    case Project => "prj"
    case Client => "cli"
    case Vendor => "vnd"
    case OrgUnit => "org"
    case ResourcePool => "pool"
    case CaseRecord => "case"
    case TimesheetWeek => "tsh"
    case LeaveRequest => "lvr"
    case Notification => "not"
    case DomainEvent => "evt"
    case Skill => "skl"
    case PeriodLock => "prd"
    case PersonCostRate => "pcr"
    case ProjectBudget => "bud"
    case ProjectRisk => "rsk"
    case ProjectRagSnapshot => "rag"
    case EmploymentEvent => "emp"
    case Contact => "ctc"
    case BudgetApproval => "ba"
    case PlannerScenario => "psc"
    case LeavePolicy => "lvp"
    case DmEscalation => "dme"
    case ProjectPosition => "pos"
  }

  const ALL_AGGREGATES: seq<AggregateType> :=
    [Person, Tenant, Project, Client, Vendor, OrgUnit, ResourcePool, CaseRecord, TimesheetWeek,
     LeaveRequest, Notification, DomainEvent, Skill, PeriodLock, PersonCostRate, ProjectBudget,
     ProjectRisk, ProjectRagSnapshot, EmploymentEvent, Contact, BudgetApproval, PlannerScenario,
     LeavePolicy, DmEscalation, ProjectPosition]

  /** The first registered type from position `k` on with the given prefix. */
  function FindPrefix(prefix: string, k: nat): Option<AggregateType>
    decreases |ALL_AGGREGATES| - k
  {
    if k >= |ALL_AGGREGATES| then None
    else if Prefix(ALL_AGGREGATES[k]) == prefix then Some(ALL_AGGREGATES[k])
    else FindPrefix(prefix, k + 1)
  }

  function AggregateTypeForPrefix(prefix: string): Option<AggregateType> { FindPrefix(prefix, 0) }

  lemma RegistryIsComplete(t: AggregateType)
    ensures t in ALL_AGGREGATES
  {
    match t
    case Person => assert ALL_AGGREGATES[0] == t;
    case Tenant => assert ALL_AGGREGATES[1] == t;
    case Project => assert ALL_AGGREGATES[2] == t;
    case Client => assert ALL_AGGREGATES[3] == t;
    case Vendor => assert ALL_AGGREGATES[4] == t;
    case OrgUnit => assert ALL_AGGREGATES[5] == t;
    case ResourcePool => assert ALL_AGGREGATES[6] == t;
    case CaseRecord => assert ALL_AGGREGATES[7] == t;
    case TimesheetWeek => assert ALL_AGGREGATES[8] == t;
    case LeaveRequest => assert ALL_AGGREGATES[9] == t;
    case Notification => assert ALL_AGGREGATES[10] == t;
    case DomainEvent => assert ALL_AGGREGATES[11] == t;
    case Skill => assert ALL_AGGREGATES[12] == t;
    case PeriodLock => assert ALL_AGGREGATES[13] == t;
    case PersonCostRate => assert ALL_AGGREGATES[14] == t;
    case ProjectBudget => assert ALL_AGGREGATES[15] == t;
    case ProjectRisk => assert ALL_AGGREGATES[16] == t;
    case ProjectRagSnapshot => assert ALL_AGGREGATES[17] == t;
    case EmploymentEvent => assert ALL_AGGREGATES[18] == t;
    case Contact => assert ALL_AGGREGATES[19] == t;
    case BudgetApproval => assert ALL_AGGREGATES[20] == t;
    case PlannerScenario => assert ALL_AGGREGATES[21] == t;
    case LeavePolicy => assert ALL_AGGREGATES[22] == t;
    case DmEscalation => assert ALL_AGGREGATES[23] == t;
    case ProjectPosition => assert ALL_AGGREGATES[24] == t;
  }

  /** Distinct types have distinct prefixes. */
  lemma PrefixesDiffer(t: AggregateType, u: AggregateType)
    requires Prefix(t) == Prefix(u)
    ensures t == u
  {
  }

  lemma PrefixIsLowerCase(t: AggregateType)
    ensures Prefix(t) != "" && forall i :: 0 <= i < |Prefix(t)| ==> IsLower(Prefix(t)[i])
  {
  }

  lemma {:induction false} FindPrefixFinds(prefix: string, k: nat)
    ensures match FindPrefix(prefix, k)
            case Some(t) => Prefix(t) == prefix
            case None => forall i :: k <= i < |ALL_AGGREGATES| ==> Prefix(ALL_AGGREGATES[i]) != prefix
    decreases |ALL_AGGREGATES| - k
  {
    hide Prefix, ALL_AGGREGATES;
    if k < |ALL_AGGREGATES| && Prefix(ALL_AGGREGATES[k]) != prefix {
      FindPrefixFinds(prefix, k + 1);
    }
  }

  /** Looking a prefix up is the inverse of `Prefix`: it finds a type exactly for that type's own prefix. */
  lemma LookupInvertsPrefix(prefix: string, t: AggregateType)
    ensures AggregateTypeForPrefix(prefix) == Some(t) <==> Prefix(t) == prefix
  {
    hide Prefix, ALL_AGGREGATES, FindPrefix;
    FindPrefixFinds(prefix, 0);
    RegistryIsComplete(t);
    match AggregateTypeForPrefix(prefix)
    case Some(u) => if Prefix(t) == prefix { PrefixesDiffer(t, u); }
    case None =>
  }

  // ----- Shapes

  predicate IsLower(c: char) { 'a' <= c <= 'z' }

  predicate IsAlnum(c: char) { IsLower(c) || 'A' <= c <= 'Z' || '0' <= c <= '9' }

  /** How many lower-case letters a string starts with. */
  function LowerRun(s: string): (k: nat)
    ensures k <= |s| && (forall i :: 0 <= i < k ==> IsLower(s[i])) && (k < |s| ==> !IsLower(s[k]))
  {
    if s == "" || !IsLower(s[0]) then 0 else 1 + LowerRun(s[1..])
  }

  /** `/^([a-z]+)_/`. */
  function ExtractPrefix(value: string): Option<string> {
    var k := LowerRun(value);
    if 1 <= k < |value| && value[k] == '_' then Some(value[..k]) else None
  }

  /** `/^([a-z]+)_([A-Za-z0-9]{8,})$/` with a registered, and if asked for the expected, prefix. */
  predicate IsValidShape(value: string, expected: Option<AggregateType>) {
    match ExtractPrefix(value)
    case None => false
    case Some(prefix) =>
      var rest := value[|prefix| + 1..];
      && |rest| >= 8 && (forall i :: 0 <= i < |rest| ==> IsAlnum(rest[i]))
      && (expected.Some? ==> prefix == Prefix(expected.value))
      && AggregateTypeForPrefix(prefix).Some?
  }

  function ExtractAggregateType(value: string): Option<AggregateType> {
    match ExtractPrefix(value)
    case None => None
    case Some(prefix) => AggregateTypeForPrefix(prefix)
  }

  predicate IsHex(c: char) { '0' <= c <= '9' || 'a' <= c <= 'f' || 'A' <= c <= 'F' }

  predicate IsHyphenIndex(i: int) { i == 8 || i == 13 || i == 18 || i == 23 }

  /** The string form of section 3 of RFC 4122, in either case. */
  predicate LooksLikeUuid(value: string) {
    |value| == 36 && forall i :: 0 <= i < 36 ==> if IsHyphenIndex(i) then value[i] == '-' else IsHex(value[i])
  }

  /** `value` is the type's prefix, an underscore and `rest`. */
  predicate IsIdOf(t: AggregateType, rest: string, value: string) { value == Prefix(t) + "_" + rest }

  predicate IsRest(rest: string) { |rest| >= 8 && forall i :: 0 <= i < |rest| ==> IsAlnum(rest[i]) }

  /** The prefix of a string is read off exactly when the string is that prefix, an underscore and anything. */
  lemma ExtractedIff(value: string, t: AggregateType)
    ensures ExtractAggregateType(value) == Some(t) <==> exists rest :: IsIdOf(t, rest, value)
  {
    hide Prefix, AggregateTypeForPrefix;
    PrefixIsLowerCase(t);
    forall rest | IsIdOf(t, rest, value) ensures ExtractPrefix(value) == Some(Prefix(t)) {
      PrefixEnds(Prefix(t), rest);
    }
    LookupInvertsPrefix(Prefix(t), t);
    match ExtractPrefix(value)
    case None =>
    case Some(p) =>
      LookupInvertsPrefix(p, t);
      assert value == p + "_" + value[|p| + 1..];
      assert Prefix(t) == p ==> IsIdOf(t, value[|p| + 1..], value);
  }

  /** A valid shape is a prefix, of the expected type if one is given, an underscore and eight or more alphanumerics. */
  lemma ValidShapeIff(value: string, expected: Option<AggregateType>)
    ensures IsValidShape(value, expected)
       <==> exists t, rest :: IsIdOf(t, rest, value) && IsRest(rest) && (expected.Some? ==> t == expected.value)
  {
    hide Prefix, AggregateTypeForPrefix;
    forall t, rest | IsIdOf(t, rest, value)
      ensures ExtractPrefix(value) == Some(Prefix(t)) && value[|Prefix(t)| + 1..] == rest
      ensures AggregateTypeForPrefix(Prefix(t)) == Some(t)
    {
      PrefixIsLowerCase(t);
      PrefixEnds(Prefix(t), rest);
      LookupInvertsPrefix(Prefix(t), t);
    }
    if IsValidShape(value, expected) {
      var p := ExtractPrefix(value).value;
      var t := AggregateTypeForPrefix(p).value;
      LookupInvertsPrefix(p, t);
      assert value == p + "_" + value[|p| + 1..];
      assert IsIdOf(t, value[|p| + 1..], value) && IsRest(value[|p| + 1..]);
      if expected.Some? { SamePrefixSameType(t, expected.value); }
    }
    forall t, rest | IsIdOf(t, rest, value) && IsRest(rest) && (expected.Some? ==> t == expected.value)
      ensures IsValidShape(value, expected)
    {}
  }

  lemma SamePrefixSameType(t: AggregateType, u: AggregateType)
    ensures Prefix(t) == Prefix(u) <==> t == u
  {
    hide Prefix;
    if Prefix(t) == Prefix(u) { PrefixesDiffer(t, u); }
  }

  // ----- Generation

  const UPPER := "ABCDEFGHJKLMNPQRSTUVWXYZ"
  const LOWER := "abcdefghijkmnpqrstuvwxyz"
  const DIGITS := "23456789"
  const ALPHABET := UPPER + LOWER + DIGITS

  /** What three bytes hold. */
  const UINT24_END := 0x100_0000

  /**
    The Sqids encoder, an external library, on the numbers that are given to it: an injection
    of pairs into long enough strings over the alphabet.
  */
  ghost predicate SqidsLike(encode: (nat, nat) -> string) {
    && (forall hi: nat, lo: nat :: hi < UINT24_END && lo < UINT24_END ==>
          |encode(hi, lo)| >= 10 && forall i :: 0 <= i < |encode(hi, lo)| ==> encode(hi, lo)[i] in ALPHABET)
    && (forall a: nat, b: nat, c: nat, d: nat ::
          a < UINT24_END && b < UINT24_END && c < UINT24_END && d < UINT24_END && encode(a, b) == encode(c, d) ==>
            a == c && b == d)
  }

  type Byte = n: int | 0 <= n < 256

  datatype Draw = Draw(b0: Byte, b1: Byte, b2: Byte, b3: Byte, b4: Byte, b5: Byte)

  function UInt24(a: Byte, b: Byte, c: Byte): (r: nat)
    ensures r < UINT24_END
  {
    a * 65536 + b * 256 + c
  }

  /** Six random bytes as two big-endian 24-bit numbers, encoded behind the prefix. */
  function Generate(t: AggregateType, draw: Draw, encode: (nat, nat) -> string): string {
    Prefix(t) + "_" + encode(UInt24(draw.b0, draw.b1, draw.b2), UInt24(draw.b3, draw.b4, draw.b5))
  }

  lemma AlphabetIsAlnum(c: char)
    requires c in ALPHABET
    ensures IsAlnum(c)
  {
    assert c in UPPER || c in LOWER || c in DIGITS by { hide UPPER, LOWER, DIGITS; }
    if c in UPPER {
      UpperIsAlnum(c);
    } else if c in LOWER {
      LowerIsAlnum(c);
    }
  }

  lemma UpperIsAlnum(c: char)
    requires c in UPPER
    ensures 'A' <= c <= 'Z'
  {}

  lemma LowerIsAlnum(c: char)
    requires c in LOWER
    ensures 'a' <= c <= 'z'
  {}

  lemma PrefixEnds(p: string, rest: string)
    requires p != "" && forall i :: 0 <= i < |p| ==> IsLower(p[i])
    ensures ExtractPrefix(p + "_" + rest) == Some(p)
  {
    var s := p + "_" + rest;
    assert s[|p|] == '_' && !IsLower(s[|p|]);
    assert forall i :: 0 <= i < |p| ==> s[i] == p[i];
    assert s[..|p|] == p;
  }

  /**
    Every generated identifier has a valid shape for its own type and no other, gives its
    type back, and is not mistaken for a UUID.
  */
  lemma GeneratedIsValid(t: AggregateType, draw: Draw, encode: (nat, nat) -> string, u: AggregateType)
    requires SqidsLike(encode)
    ensures var id := Generate(t, draw, encode);
      && IsValidShape(id, None) && (IsValidShape(id, Some(u)) <==> u == t)
      && ExtractAggregateType(id) == Some(t)
      && !LooksLikeUuid(id)
  {
    hide Prefix, ALPHABET, AggregateTypeForPrefix;
    var hi, lo := UInt24(draw.b0, draw.b1, draw.b2), UInt24(draw.b3, draw.b4, draw.b5);
    var rest := encode(hi, lo);
    var id := Generate(t, draw, encode);
    PrefixIsLowerCase(t);
    PrefixEnds(Prefix(t), rest);
    assert id[|Prefix(t)| + 1..] == rest;
    forall i | 0 <= i < |rest| ensures IsAlnum(rest[i]) {
      AlphabetIsAlnum(rest[i]);
    }
    LookupInvertsPrefix(Prefix(t), t);
    if Prefix(u) == Prefix(t) { PrefixesDiffer(t, u); }
    ValidShapeIsNoUuid(id, None);
  }

  /** Whoever can decode the encoder's strings gets the six bytes back from an id, in their order. */
  lemma IdGivesItsBytesBack(t: AggregateType, draw: Draw, encode: (nat, nat) -> string, decode: string -> (nat, nat))
    requires forall hi: nat, lo: nat :: hi < UINT24_END && lo < UINT24_END ==> decode(encode(hi, lo)) == (hi, lo)
    ensures var (hi, lo) := decode(Generate(t, draw, encode)[|Prefix(t)| + 1..]);
      draw == Draw(hi / 65536, hi / 256 % 256, hi % 256, lo / 65536, lo / 256 % 256, lo % 256)
  {
    hide Prefix;
    var hi, lo := UInt24(draw.b0, draw.b1, draw.b2), UInt24(draw.b3, draw.b4, draw.b5);
    assert Generate(t, draw, encode)[|Prefix(t)| + 1..] == encode(hi, lo);
    ThreeBytes(draw.b0, draw.b1, draw.b2);
    ThreeBytes(draw.b3, draw.b4, draw.b5);
  }

  lemma ThreeBytes(a: Byte, b: Byte, c: Byte)
    ensures var n := UInt24(a, b, c); n / 65536 == a && n / 256 % 256 == b && n % 256 == c
  {
    var n := UInt24(a, b, c);
    FloorIs(n, 65536, a);
    FloorIs(n, 256, a * 256 + b);
    ModOf(256, a, b);
    ModOf(256, a * 256 + b, c);
  }

  /** All that follows the prefix and its underscore is from the alphabet. */
  lemma GeneratedIsInAlphabet(t: AggregateType, draw: Draw, encode: (nat, nat) -> string)
    requires SqidsLike(encode)
    ensures var id := Generate(t, draw, encode); forall k :: |Prefix(t)| < k < |id| ==> id[k] in ALPHABET
  {
    hide Prefix, ALPHABET;
    var id := Generate(t, draw, encode);
    var rest := encode(UInt24(draw.b0, draw.b1, draw.b2), UInt24(draw.b3, draw.b4, draw.b5));
    assert id[|Prefix(t)| + 1..] == rest;
    forall k | |Prefix(t)| < k < |id| ensures id[k] in ALPHABET {
      assert id[k] == rest[k - |Prefix(t)| - 1];
    }
  }

  /** No identifier of valid shape looks like a UUID: the underscore after the prefix gives it away. */
  lemma ValidShapeIsNoUuid(id: string, expected: Option<AggregateType>)
    requires IsValidShape(id, expected)
    ensures !LooksLikeUuid(id)
  {
    hide Prefix, ALL_AGGREGATES, AggregateTypeForPrefix;
    var k := |ExtractPrefix(id).value|;
    assert id[k] == '_';
    assert !IsHex('_');
  }

  lemma BytesFromUInt24(a: Byte, b: Byte, c: Byte, x: Byte, y: Byte, z: Byte)
    ensures UInt24(a, b, c) == UInt24(x, y, z) ==> a == x && b == y && c == z
  {}

  /** Identifiers coincide only when both the type and the 48 random bits do. */
  lemma GenerateIsInjective(t: AggregateType, d: Draw, u: AggregateType, e: Draw, encode: (nat, nat) -> string)
    requires SqidsLike(encode)
    ensures Generate(t, d, encode) == Generate(u, e, encode) <==> t == u && d == e
  {
    hide Prefix, ALPHABET, ExtractPrefix, UInt24;
    var x := encode(UInt24(d.b0, d.b1, d.b2), UInt24(d.b3, d.b4, d.b5));
    var y := encode(UInt24(e.b0, e.b1, e.b2), UInt24(e.b3, e.b4, e.b5));
    if Generate(t, d, encode) == Generate(u, e, encode) {
      PrefixIsLowerCase(t);
      PrefixIsLowerCase(u);
      PrefixEnds(Prefix(t), x);
      PrefixEnds(Prefix(u), y);
      PrefixesDiffer(t, u);
      BytesFromUInt24(d.b0, d.b1, d.b2, e.b0, e.b1, e.b2);
      BytesFromUInt24(d.b3, d.b4, d.b5, e.b3, e.b4, e.b5);
      assert x == Generate(t, d, encode)[|Prefix(t)| + 1..] == y;
    }
  }
}

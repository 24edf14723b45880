/** Version 2 of the wire format of the age-of-post rule: the mapping between
    the in-memory AgeOfPostRule and the `wise_rule_age_of_post` record. */
module AgeOfPostSchema {
  import opened Wrappers

  /** AgeOfPostRule.Mode. At run time the field may hold any value, so a value
      outside the enumeration is kept as `OtherMode`. */
  datatype Mode = OlderThan | YoungerThan | OtherMode(raw: string)

  /** AgeOfPostRule.TimeUnit, with `OtherUnit` for a value outside the enumeration. */
  datatype TimeUnit = Day | Hour | Minute | Second | OtherUnit(raw: string)

  /** The in-memory rule `new AgeOfPostRule(mode, value, unit)`. */
  datatype AgeOfPostRule = AgeOfPostRule(mode: Mode, value: real, unit: TimeUnit)

  /** The wire record `{rule, mode, unit, value}`. The fields are strings as
      they arrive in JSON; the declared type narrows them, the data may not. */
  datatype WireAgeOfPost = WireAgeOfPost(rule: string, mode: string, unit: string, value: real)

  /** ValidationException, raised for a value outside an enumeration. */
  datatype ValidationException =
    | UnknownRuleMode(mode: Mode)       // encode: "AgeOfPost rule, unknown mode"
    | UnknownRuleUnit(unit: TimeUnit)   // encode: "AgeOfPostRule, unknown unit"
    | UnknownWireMode(wireMode: string) // decode: "v2:wise_rule_age_of_post: unknown mode"
    | UnknownWireUnit(wireUnit: string) // decode: "v2:wise_rule_age_of_post: unknown unit"

  const RuleTag: string := "age_of_post"

  /** The wire spelling of each known mode. */
  function ModeName(m: Mode): Option<string>
  {
    match m
    case OlderThan => Some("older_than")
    case YoungerThan => Some("younger_than")
    case OtherMode(_) => None
  }

  /** The mode a wire spelling stands for. */
  function ModeOfName(s: string): Option<Mode>
  {
    if s == "older_than" then Some(OlderThan)
    else if s == "younger_than" then Some(YoungerThan)
    else None
  }

  /** The wire spelling of each known unit. */
  function UnitName(u: TimeUnit): Option<string>
  {
    match u
    case Day => Some("day")
    case Hour => Some("hour")
    case Minute => Some("minute")
    case Second => Some("second")
    case OtherUnit(_) => None
  }

  /** The unit a wire spelling stands for. */
  function UnitOfName(s: string): Option<TimeUnit>
  {
    if s == "day" then Some(Day)
    else if s == "hour" then Some(Hour)
    else if s == "minute" then Some(Minute)
    else if s == "second" then Some(Second)
    else None
  }

  /** The enumerations the rule may hold. */
  predicate KnownRule(r: AgeOfPostRule)
  {
    ModeName(r.mode).Some? && UnitName(r.unit).Some?
  }

  /** The spellings the decoder accepts. */
  predicate KnownWire(w: WireAgeOfPost)
  {
    ModeOfName(w.mode).Some? && UnitOfName(w.unit).Some?
  }

  /** `wise_rule_age_of_post_encode`. The mode is checked before the unit. */
  function Encode(r: AgeOfPostRule): (res: Result<WireAgeOfPost, ValidationException>)
    ensures res.Success? <==> KnownRule(r)
    ensures res.Success? ==> res.value.rule == RuleTag && res.value.value == r.value
    ensures res.Success? ==> KnownWire(res.value)
    ensures res.Success? ==> Some(res.value.mode) == ModeName(r.mode) && Some(res.value.unit) == UnitName(r.unit)
    ensures ModeName(r.mode).None? ==> res == Failure(UnknownRuleMode(r.mode))
    ensures ModeName(r.mode).Some? && UnitName(r.unit).None? ==> res == Failure(UnknownRuleUnit(r.unit))
  {
    if r.mode == OlderThan || r.mode == YoungerThan then
      var mode := if r.mode == OlderThan then "older_than" else "younger_than";
      if r.unit == Day then Success(WireAgeOfPost(RuleTag, mode, "day", r.value))
      else if r.unit == Hour then Success(WireAgeOfPost(RuleTag, mode, "hour", r.value))
      else if r.unit == Minute then Success(WireAgeOfPost(RuleTag, mode, "minute", r.value))
      else if r.unit == Second then Success(WireAgeOfPost(RuleTag, mode, "second", r.value))
      else Failure(UnknownRuleUnit(r.unit))
    else Failure(UnknownRuleMode(r.mode))
  }

  /** `wise_rule_age_of_post_decode`. The `rule` field is not read; the mode
      is checked before the unit. */
  function Decode(w: WireAgeOfPost): (res: Result<AgeOfPostRule, ValidationException>)
    ensures res.Success? <==> KnownWire(w)
    ensures res.Success? ==> KnownRule(res.value) && res.value.value == w.value
    ensures res.Success? ==> ModeOfName(w.mode) == Some(res.value.mode) && UnitOfName(w.unit) == Some(res.value.unit)
    ensures ModeOfName(w.mode).None? ==> res == Failure(UnknownWireMode(w.mode))
    ensures ModeOfName(w.mode).Some? && UnitOfName(w.unit).None? ==> res == Failure(UnknownWireUnit(w.unit))
  {
    if w.mode == "older_than" || w.mode == "younger_than" then
      var mode := if w.mode == "older_than" then OlderThan else YoungerThan;
      if w.unit == "day" then Success(AgeOfPostRule(mode, w.value, Day))
      else if w.unit == "hour" then Success(AgeOfPostRule(mode, w.value, Hour))
      else if w.unit == "minute" then Success(AgeOfPostRule(mode, w.value, Minute))
      else if w.unit == "second" then Success(AgeOfPostRule(mode, w.value, Second))
      else Failure(UnknownWireUnit(w.unit))
    else Failure(UnknownWireMode(w.mode))
  }

  /** The mode spellings are a bijection between the two known modes and
      "older_than" / "younger_than". */
  lemma ModeNamesBijective(m: Mode, s: string)
    ensures ModeName(m) == Some(s) <==> ModeOfName(s) == Some(m)
  {
  }

  /** The unit spellings are a bijection between the four known units and
      "day" / "hour" / "minute" / "second". */
  lemma UnitNamesBijective(u: TimeUnit, s: string)
    ensures UnitName(u) == Some(s) <==> UnitOfName(s) == Some(u)
  {
  }

  /** Round trip from memory: decoding an encoded rule gives the same mode,
      unit and value back. */
  lemma DecodeEncode(r: AgeOfPostRule)
    requires KnownRule(r)
    ensures Encode(r).Success? && Decode(Encode(r).value) == Success(r)
  {
  }

  /** Round trip from the wire: a record the decoder accepts, tagged
      "age_of_post", is rebuilt exactly by encoding what it decodes to. */
  lemma EncodeDecode(w: WireAgeOfPost)
    requires KnownWire(w) && w.rule == RuleTag
    ensures Decode(w).Success? && Encode(Decode(w).value) == Success(w)
  {
  }

  /** The decoder never reads the `rule` field. */
  lemma DecodeIgnoresRuleTag(w: WireAgeOfPost, tag: string)
    ensures Decode(w.(rule := tag)) == Decode(w)
  {
  }

  /** When both enumerations are unknown, both directions report the mode. */
  lemma ModeErrorFirst(r: AgeOfPostRule, w: WireAgeOfPost)
    requires ModeName(r.mode).None? && UnitName(r.unit).None?
    requires ModeOfName(w.mode).None? && UnitOfName(w.unit).None?
    ensures Encode(r) == Failure(UnknownRuleMode(r.mode))
    ensures Decode(w) == Failure(UnknownWireMode(w.mode))
  {
  }
}

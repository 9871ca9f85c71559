/** The input validators: the e-mail shape, the password rules, the single-field checks
    and the two composite checks for item and swap payloads, each of which reports the
    first failing check. Payload fields are arbitrary JavaScript values, so the field
    checks follow JavaScript's truthiness, `.length` and `Number()` conversion. */
module Validation {
  import opened Wrappers
  import opened JsText
  import opened ItemModel

  /* ------------------------------------------------------------------ e-mail */

  /** A character the e-mail pattern's class `[^\s@]` admits. */
  predicate Plain(c: char) {
    !IsWhitespace(c) && c != '@'
  }

  predicate AllPlain(s: string) {
    forall i | 0 <= i < |s| :: Plain(s[i])
  }

  /** The language of `^[^\s@]+@[^\s@]+\.[^\s@]+$`: a non-empty plain local part, one
      `@`, and a plain domain with a `.` that has text on both sides. */
  predicate EmailShape(s: string) {
    exists k | 0 < k < |s| ::
      && s[k] == '@' && AllPlain(s[..k])
      && AllPlain(s[k + 1..])
      && exists j | k + 1 < j < |s| - 1 :: s[j] == '.'
  }

  /** `Validator.email`: find the `@`, then check both sides. */
  function Email(s: string): (ok: bool)
    ensures ok <==> EmailShape(s)
  {
    match IndexOf(s, '@')
    case None => false
    case Some(k) =>
      EmailCharacterised(s, k);
      SplitsAt(s, k)
  }

  /** The split an e-mail check makes at the first `@`, at position `k`. */
  predicate SplitsAt(s: string, k: nat)
    requires k < |s|
  {
    0 < k && k + 3 <= |s| && AllPlain(s[..k]) && AllPlain(s[k + 1..]) && '.' in s[k + 2..|s| - 1]
  }

  /** The `@` an e-mail address is split at can only be the first one. */
  lemma EmailCharacterised(s: string, k: nat)
    requires k < |s| && s[k] == '@' && '@' !in s[..k]
    ensures EmailShape(s) <==> SplitsAt(s, k)
  {
    if EmailShape(s) {
      ShapeSplitsAtFirst(s, k);
    }
    if SplitsAt(s, k) {
      var i :| 0 <= i < |s[k + 2..|s| - 1]| && s[k + 2..|s| - 1][i] == '.';
      assert s[k + 2 + i] == '.';
    }
  }

  /** A well-formed address is split at its first `@`. */
  lemma ShapeSplitsAtFirst(s: string, k: nat)
    requires k < |s| && s[k] == '@' && '@' !in s[..k]
    requires EmailShape(s)
    ensures SplitsAt(s, k)
  {
    var k' :| 0 < k' < |s| && s[k'] == '@' && AllPlain(s[..k']) && AllPlain(s[k' + 1..])
              && exists j | k' + 1 < j < |s| - 1 :: s[j] == '.';
    OnlyFirstAt(s, k, k');
    var j :| k + 1 < j < |s| - 1 && s[j] == '.';
    assert s[k + 2..|s| - 1][j - (k + 2)] == '.';
  }

  /** An `@` with a plain prefix is the first `@`. */
  lemma OnlyFirstAt(s: string, k: nat, k': nat)
    requires k < |s| && s[k] == '@' && '@' !in s[..k]
    requires k' < |s| && s[k'] == '@' && AllPlain(s[..k'])
    ensures k' == k
  {
  }

  /* ---------------------------------------------------------------- password */

  datatype PasswordRule = MinimumLength | Lowercase | Uppercase | Digit

  /** The rules in the order the source checks them. */
  const PasswordRules: seq<PasswordRule> := [MinimumLength, Lowercase, Uppercase, Digit]

  const PasswordMinLength: nat := 8

  predicate HasLower(p: string) { exists i | 0 <= i < |p| :: 'a' <= p[i] <= 'z' }
  predicate HasUpper(p: string) { exists i | 0 <= i < |p| :: 'A' <= p[i] <= 'Z' }
  predicate HasDigit(p: string) { exists i | 0 <= i < |p| :: '0' <= p[i] <= '9' }

  predicate Satisfies(p: string, rule: PasswordRule) {
    match rule
    case MinimumLength => |p| >= PasswordMinLength
    case Lowercase => HasLower(p)
    case Uppercase => HasUpper(p)
    case Digit => HasDigit(p)
  }

  function RuleMessage(rule: PasswordRule): string {
    match rule
    case MinimumLength => "Password must be at least 8 characters long"
    case Lowercase => "Password must contain at least one lowercase letter"
    case Uppercase => "Password must contain at least one uppercase letter"
    case Digit => "Password must contain at least one number"
  }

  /** The message of `rule` if `p` breaks it, nothing otherwise. */
  function Complaint(p: string, rule: PasswordRule): seq<string> {
    if Satisfies(p, rule) then [] else [RuleMessage(rule)]
  }

  /** The messages of the rules in `rules` that `p` breaks, in the order of `rules`. */
  function Broken(p: string, rules: seq<PasswordRule>): seq<string> {
    if rules == [] then [] else Complaint(p, rules[0]) + Broken(p, rules[1..])
  }

  datatype PasswordReport = PasswordReport(isValid: bool, errors: seq<string>)

  /** `Validator.password`: valid exactly when at least 8 characters long and holding a
      lowercase letter, an uppercase letter and a digit; `errors` holds one message per
      broken rule, in the fixed rule order. */
  function Password(p: string): (r: PasswordReport)
    ensures r.isValid <==> |p| >= PasswordMinLength && HasLower(p) && HasUpper(p) && HasDigit(p)
    ensures r.isValid <==> r.errors == []
    ensures r.errors == Broken(p, PasswordRules)
  {
    var errors := Complaint(p, MinimumLength) + Complaint(p, Lowercase)
                + Complaint(p, Uppercase) + Complaint(p, Digit);
    BrokenUnfolds(p);
    PasswordReport(|errors| == 0, errors)
  }

  /** Different rules have different messages. */
  lemma MessagesDistinct(a: PasswordRule, b: PasswordRule)
    requires a != b
    ensures RuleMessage(a) != RuleMessage(b)
  {
    if {a, b} == {Lowercase, Uppercase} {
      assert RuleMessage(a)[35] != RuleMessage(b)[35];
    } else {
      assert |RuleMessage(a)| != |RuleMessage(b)|;
    }
  }

  /** The report names a rule exactly when the password breaks it. */
  lemma {:induction false} PasswordNamesBrokenRules(p: string, rule: PasswordRule)
    ensures RuleMessage(rule) in Password(p).errors <==> !Satisfies(p, rule)
  {
    var e := Password(p).errors;
    var m := RuleMessage(rule);
    var c1, c2, c3, c4 := Complaint(p, MinimumLength), Complaint(p, Lowercase), Complaint(p, Uppercase), Complaint(p, Digit);
    BrokenUnfolds(p);
    assert e == ((c1 + c2) + c3) + c4;
    assert m in e <==> m in c1 || m in c2 || m in c3 || m in c4;
    ComplaintNames(p, MinimumLength, rule);
    ComplaintNames(p, Lowercase, rule);
    ComplaintNames(p, Uppercase, rule);
    ComplaintNames(p, Digit, rule);
  }

  /** One rule's complaint holds another rule's message only when the two are the same
      rule and the password breaks it. */
  lemma ComplaintNames(p: string, r: PasswordRule, rule: PasswordRule)
    ensures RuleMessage(rule) in Complaint(p, r) <==> r == rule && !Satisfies(p, r)
  {
    if r != rule {
      MessagesDistinct(r, rule);
    }
  }

  /** The broken-rule messages, rule by rule. */
  lemma {:induction false} BrokenUnfolds(p: string)
    ensures Broken(p, PasswordRules)
         == Complaint(p, MinimumLength) + Complaint(p, Lowercase) + Complaint(p, Uppercase) + Complaint(p, Digit)
  {
    var rs := PasswordRules;
    assert rs[1..] == [Lowercase, Uppercase, Digit];
    assert rs[1..][1..] == [Uppercase, Digit];
    assert rs[1..][1..][1..] == [Digit];
    assert rs[1..][1..][1..][1..] == [];
    assert Broken(p, [Digit]) == Complaint(p, Digit);
    assert Broken(p, [Uppercase, Digit]) == Complaint(p, Uppercase) + Complaint(p, Digit);
    assert Broken(p, [Lowercase, Uppercase, Digit])
        == Complaint(p, Lowercase) + (Complaint(p, Uppercase) + Complaint(p, Digit));
  }

  /* ---------------------------------------------------------- field values */

  /** A JavaScript value as a payload field may hold it. Numbers are exact reals, with
      NaN as a case of its own. */
  datatype JsValue =
    | Undefined
    | Null
    | Bool(b: bool)
    | Num(n: real)
    | NaN
    | Str(s: string)
    | Arr(elems: seq<JsValue>)

  predicate Truthy(v: JsValue) {
    match v
    case Undefined => false
    case Null => false
    case Bool(b) => b
    case Num(n) => n != 0.0
    case NaN => false
    case Str(s) => s != ""
    case Arr(_) => true
  }

  /** `value.length`: strings and arrays have one, other values give undefined. */
  function Length(v: JsValue): Option<nat> {
    match v
    case Str(s) => Some(|s|)
    case Arr(e) => Some(|e|)
    case _ => None
  }

  predicate IsDigitChar(c: char) { '0' <= c <= '9' }
  predicate AllDigits(s: string) { forall i | 0 <= i < |s| :: IsDigitChar(s[i]) }

  function DigitsValue(s: string): nat
    requires AllDigits(s)
  {
    if s == [] then 0 else 10 * DigitsValue(s[..|s| - 1]) + (s[|s| - 1] as int - '0' as int)
  }

  function Pow10(n: nat): (r: nat)
    ensures r >= 1
  {
    if n == 0 then 1 else 10 * Pow10(n - 1)
  }

  /** A decimal literal without sign: digits, at most one `.`, at least one digit. */
  function UnsignedDecimal(s: string): Option<real> {
    match IndexOf(s, '.')
    case None => if s != [] && AllDigits(s) then Some(DigitsValue(s) as real) else None
    case Some(k) =>
      var whole := s[..k];
      var frac := s[k + 1..];
      if (whole != [] || frac != []) && AllDigits(whole) && AllDigits(frac) then
        Some(DigitsValue(whole) as real + DigitsValue(frac) as real / Pow10(|frac|) as real)
      else None
  }

  /** `Number(string)`: surrounding whitespace ignored, blank is 0, an optional sign
      before a decimal literal; anything else is NaN (None). */
  function StringToNumber(s: string): Option<real> {
    var t := Trim(s);
    if t == [] then Some(0.0)
    else if t[0] == '-' then
      match UnsignedDecimal(t[1..]) case None => None case Some(x) => Some(-x)
    else if t[0] == '+' then UnsignedDecimal(t[1..])
    else UnsignedDecimal(t)
  }

  /** `Number(value)`; None stands for NaN. An array converts through its joined text:
      empty is 0, one element converts as that element (null and undefined as the
      empty text), more than one is NaN. */
  function ToNumber(v: JsValue): Option<real> {
    match v
    case Undefined => None
    case Null => Some(0.0)
    case Bool(b) => Some(if b then 1.0 else 0.0)
    case Num(n) => Some(n)
    case NaN => None
    case Str(s) => StringToNumber(s)
    case Arr(e) =>
      if |e| == 0 then Some(0.0)
      else if |e| > 1 then None
      else match e[0]
        case Undefined => Some(0.0)
        case Null => Some(0.0)
        case Bool(_) => None
        case _ => ToNumber(e[0])
  }

  /** Text with no surrounding whitespace and no sign converts as an unsigned literal. */
  lemma UnsignedText(t: string)
    requires t != [] && Trimmed(t) && t[0] != '-' && t[0] != '+'
    ensures ToNumber(Str(t)) == UnsignedDecimal(t)
  {
    TrimOfTrimmed(t);
  }

  /** A numeric string converts to its value. */
  lemma ToNumberOfDigits()
    ensures ToNumber(Str("20")) == Some(20.0)
  {
    var t := "20";
    assert !IsWhitespace(t[0]) && !IsWhitespace(t[1]);
    UnsignedText(t);
    assert '.' !in t;
    assert AllDigits(t);
    assert DigitsValue(t) == 20 by {
      assert t[..1] == "2";
      assert "2"[..0] == "";
    }
  }

  /** The digits of a rendered natural number read back as that number. */
  lemma {:induction false} DigitsOfNat(n: nat)
    ensures AllDigits(NatToString(n)) && DigitsValue(NatToString(n)) == n
  {
    var s := NatToString(n);
    if n >= 10 {
      DigitsOfNat(n / 10);
      assert s[..|s| - 1] == NatToString(n / 10);
    }
  }

  /** `Number` inverts the decimal rendering of a natural number, so the bounds printed
      in the length messages are the bounds checked. */
  lemma NumberOfNatText(n: nat)
    ensures ToNumber(Str(NatToString(n))) == Some(n as real)
  {
    DigitsOfNat(n);
    DigitTextNumber(NatToString(n));
  }

  /** A non-empty run of digits converts to the number it spells. */
  lemma DigitTextNumber(t: string)
    requires t != [] && AllDigits(t)
    ensures ToNumber(Str(t)) == Some(DigitsValue(t) as real)
  {
    assert IsDigitChar(t[0]) && IsDigitChar(t[|t| - 1]);
    UnsignedText(t);
    assert '.' !in t by {
      forall i | 0 <= i < |t| ensures t[i] != '.' {
        assert IsDigitChar(t[i]);
      }
    }
  }

  /** Text that is not a number converts to NaN. */
  lemma ToNumberOfText()
    ensures ToNumber(Str("abc")).None?
  {
    var t := "abc";
    assert !IsWhitespace(t[0]) && !IsWhitespace(t[2]);
    UnsignedText(t);
    LeadingLetterNotDecimal(t);
  }

  /** Text that starts with neither a digit nor `.` is no decimal literal. */
  lemma LeadingLetterNotDecimal(t: string)
    requires t != [] && !IsDigitChar(t[0]) && t[0] != '.'
    ensures UnsignedDecimal(t).None?
  {
    match IndexOf(t, '.')
    case None =>
    case Some(k) =>
      assert t[..k][0] == t[0];
  }

  /* ------------------------------------------------------------ field checks */

  datatype ValidationError = ValidationError(field: string, message: string)

  type Check = Outcome<ValidationError>

  /** A value `required` lets through: truthy, and not a blank string. */
  predicate Present(v: JsValue) {
    Truthy(v) && !(v.Str? && Blank(v.s))
  }

  /** `Validator.required`: falsy values and blank strings fail. */
  function Required(v: JsValue, field: string): (r: Check)
    ensures r.Pass? <==> Present(v)
    ensures r.Fail? ==> r.error == ValidationError(field, field + " is required")
  {
    if !Truthy(v) || (v.Str? && Trim(v.s) == "") then Fail(ValidationError(field, field + " is required"))
    else Pass
  }

  /** `Validator.minLength`; the bound is inclusive, and a value without a length
      passes. Reading `.length` of undefined or null throws, so those are excluded. */
  function MinLength(v: JsValue, min: nat, field: string): (r: Check)
    requires !v.Undefined? && !v.Null?
    ensures r.Pass? <==> Length(v).None? || Length(v).value >= min
    ensures r.Fail? ==> r.error == ValidationError(field, field + " must be at least " + NatToString(min) + " characters")
  {
    match Length(v)
    case Some(n) =>
      if n < min then Fail(ValidationError(field, field + " must be at least " + NatToString(min) + " characters"))
      else Pass
    case None => Pass
  }

  /** `Validator.maxLength`; the bound is inclusive, and a value without a length passes. */
  function MaxLength(v: JsValue, max: nat, field: string): (r: Check)
    requires !v.Undefined? && !v.Null?
    ensures r.Pass? <==> Length(v).None? || Length(v).value <= max
    ensures r.Fail? ==> r.error == ValidationError(field, field + " must not exceed " + NatToString(max) + " characters")
  {
    match Length(v)
    case Some(n) =>
      if n > max then Fail(ValidationError(field, field + " must not exceed " + NatToString(max) + " characters"))
      else Pass
    case None => Pass
  }

  /** `Validator.isIn`: only a string equal to one of the allowed values passes. */
  function IsIn(v: JsValue, allowed: seq<string>, field: string): (r: Check)
    ensures r.Pass? <==> v.Str? && v.s in allowed
    ensures r.Fail? ==> r.error == ValidationError(field, field + " must be one of: " + Join(allowed, ", "))
  {
    if v.Str? && v.s in allowed then Pass
    else Fail(ValidationError(field, field + " must be one of: " + Join(allowed, ", ")))
  }

  /** `Validator.isNumber`: fails exactly when `Number(value)` is NaN. */
  function IsNumber(v: JsValue, field: string): (r: Check)
    ensures r.Pass? <==> ToNumber(v).Some?
    ensures r.Fail? ==> r.error == ValidationError(field, field + " must be a valid number")
  {
    if ToNumber(v).None? then Fail(ValidationError(field, field + " must be a valid number")) else Pass
  }

  /** `Validator.isPositive`: fails exactly when the value compares `<= 0`; NaN
      compares false and so passes. */
  function IsPositive(v: JsValue, field: string): (r: Check)
    ensures r.Pass? <==> ToNumber(v).None? || ToNumber(v).value > 0.0
    ensures r.Fail? ==> r.error == ValidationError(field, field + " must be a positive number")
  {
    match ToNumber(v)
    case Some(x) => if x <= 0.0 then Fail(ValidationError(field, field + " must be a positive number")) else Pass
    case None => Pass
  }

  /** `Validator.isArray`. */
  function IsArray(v: JsValue, field: string): (r: Check)
    ensures r.Pass? <==> v.Arr?
    ensures r.Fail? ==> r.error == ValidationError(field, field + " must be an array")
  {
    if v.Arr? then Pass else Fail(ValidationError(field, field + " must be an array"))
  }

  /** The position of the first `false` in `verdicts`, or its length when there is none:
      the check a first-failure-wins sequence stops at. */
  function FirstFalse(verdicts: seq<bool>): (r: nat)
    ensures r <= |verdicts|
    ensures r < |verdicts| ==> !verdicts[r]
    ensures forall j | 0 <= j < r :: verdicts[j]
  {
    if verdicts == [] then 0
    else if !verdicts[0] then 0
    else 1 + FirstFalse(verdicts[1..])
  }

  /** Which checks of a sequence pass. */
  function Passes(checks: seq<Check>): (r: seq<bool>)
    ensures |r| == |checks|
    ensures forall i | 0 <= i < |r| :: r[i] == checks[i].Pass?
  {
    seq(|checks|, i requires 0 <= i < |checks| => checks[i].Pass?)
  }

  /** Checks run in order until one throws: the result is the first failure, or a pass
      when every check passes. */
  function FirstFailure(checks: seq<Check>): (r: Check)
    ensures r.Pass? <==> forall i | 0 <= i < |checks| :: checks[i].Pass?
    ensures r.Fail? ==> var k := FirstFalse(Passes(checks)); k < |checks| && r == checks[k]
  {
    if checks == [] then Pass
    else
      assert Passes(checks)[1..] == Passes(checks[1..]);
      :- checks[0];
      FirstFailure(checks[1..])
  }

  /* ------------------------------------------------------------ item payload */

  /** An item payload; `garmentType` is its `type` field. */
  datatype ItemForm = ItemForm(
    title: JsValue,
    description: JsValue,
    category: JsValue,
    condition: JsValue,
    size: JsValue,
    garmentType: JsValue,
    images: JsValue,
    tags: JsValue)

  const MaxImages: nat := 5

  /** The fields in the order `validateItemData` checks them. */
  const ItemFieldOrder: seq<string> := ["title", "description", "category", "condition", "size", "type", "images", "tags"]

  /** A present value whose length, if it has one, lies within `lo..hi` inclusive. */
  predicate TextOk(v: JsValue, lo: nat, hi: nat) {
    Present(v) && (Length(v).None? || lo <= Length(v).value <= hi)
  }

  /** Whether each field is acceptable, in the order of `ItemFieldOrder`. */
  function ItemVerdicts(d: ItemForm): (r: seq<bool>)
    ensures |r| == |ItemFieldOrder|
  {
    [ TextOk(d.title, 3, 100),
      TextOk(d.description, 10, 1000),
      Present(d.category) && d.category.Str? && d.category.s in CategoryNames,
      Present(d.condition) && d.condition.Str? && d.condition.s in ConditionNames,
      Present(d.size),
      Present(d.garmentType),
      !Truthy(d.images) || (d.images.Arr? && 1 <= |d.images.elems| <= MaxImages),
      !Truthy(d.tags) || d.tags.Arr? ]
  }

  /** required, then the inclusive length bounds. */
  function TextCheck(v: JsValue, lo: nat, hi: nat, field: string): (r: Check)
    ensures r.Pass? <==> TextOk(v, lo, hi)
    ensures r.Fail? ==> r.error.field == field
  {
    var required := Required(v, field);
    if required.Fail? then required
    else
      :- MinLength(v, lo, field);
      MaxLength(v, hi, field)
  }

  /** required, then membership. */
  function ChoiceCheck(v: JsValue, allowed: seq<string>, field: string): (r: Check)
    ensures r.Pass? <==> Present(v) && v.Str? && v.s in allowed
    ensures r.Fail? ==> r.error.field == field
  {
    var required := Required(v, field);
    if required.Fail? then required else IsIn(v, allowed, field)
  }

  /** A truthy `images` must be an array of one to five entries. */
  function ImagesCheck(v: JsValue): (r: Check)
    ensures r.Pass? <==> !Truthy(v) || (v.Arr? && 1 <= |v.elems| <= MaxImages)
    ensures r.Fail? ==> r.error.field == "images"
    ensures v.Arr? && |v.elems| == 0 ==> r == Fail(ValidationError("images", "At least one image is required"))
    ensures v.Arr? && |v.elems| > MaxImages ==> r == Fail(ValidationError("images", "Maximum 5 images allowed"))
  {
    if Truthy(v) then
      :- IsArray(v, "images");
      if |v.elems| == 0 then Fail(ValidationError("images", "At least one image is required"))
      else if |v.elems| > MaxImages then Fail(ValidationError("images", "Maximum 5 images allowed"))
      else Pass
    else Pass
  }

  /** The checks of one field, by its position in `ItemFieldOrder`. */
  function ItemFieldCheck(d: ItemForm, i: nat): (r: Check)
    requires i < |ItemFieldOrder|
    ensures r.Pass? <==> ItemVerdicts(d)[i]
    ensures r.Fail? ==> r.error.field == ItemFieldOrder[i]
  {
    if i == 0 then TextCheck(d.title, 3, 100, "title")
    else if i == 1 then TextCheck(d.description, 10, 1000, "description")
    else if i == 2 then ChoiceCheck(d.category, CategoryNames, "category")
    else if i == 3 then ChoiceCheck(d.condition, ConditionNames, "condition")
    else if i == 4 then Required(d.size, "size")
    else if i == 5 then Required(d.garmentType, "type")
    else if i == 6 then ImagesCheck(d.images)
    else if Truthy(d.tags) then IsArray(d.tags, "tags") else Pass
  }

  /** `Validator.validateItemData`: the fields are checked in a fixed order and the first
      failure is reported. The payload passes exactly when every field is acceptable;
      otherwise the error names the first unacceptable field. */
  function ValidateItemData(d: ItemForm): (r: Check)
    ensures r.Pass? <==> forall i | 0 <= i < |ItemFieldOrder| :: ItemVerdicts(d)[i]
    ensures r.Fail? ==> var k := FirstFalse(ItemVerdicts(d));
      k < |ItemFieldOrder| && r.error.field == ItemFieldOrder[k]
  {
    var checks := seq(|ItemFieldOrder|, i requires 0 <= i < |ItemFieldOrder| => ItemFieldCheck(d, i));
    assert Passes(checks) == ItemVerdicts(d);
    FirstFailure(checks)
  }

  /** Length bounds are inclusive at both ends: a non-blank title of exactly 3 or exactly
      100 characters is accepted, one of 2 or 101 is not. */
  lemma TitleBoundsInclusive(t: string)
    requires !Blank(t)
    ensures |t| == 3 || |t| == 100 ==> ItemFieldCheck(ItemForm(Str(t), Undefined, Undefined, Undefined, Undefined, Undefined, Undefined, Undefined), 0).Pass?
    ensures |t| == 2 || |t| == 101 ==> ItemFieldCheck(ItemForm(Str(t), Undefined, Undefined, Undefined, Undefined, Undefined, Undefined, Undefined), 0).Fail?
  {
  }

  /* ------------------------------------------------------------ swap payload */

  /** A swap payload; `kind` is its `type` field. */
  datatype SwapForm = SwapForm(
    itemId: JsValue,
    kind: JsValue,
    offeredItemId: JsValue,
    pointsOffered: JsValue,
    message: JsValue)

  const SwapTypeNames: seq<string> := ["direct", "points"]
  /** The validator's own message bound, written separately from the schema's. */
  const MessageMaxLength: nat := 500

  /** The fields in the order `validateSwapData` checks them; the third depends on the type. */
  function SwapFieldOrder(d: SwapForm): (r: seq<string>)
    ensures |r| == 4
  {
    ["itemId", "type", if d.kind == Str("points") then "pointsOffered" else "offeredItemId", "message"]
  }

  /** A points amount `validateSwapData` accepts: present, numeric and above zero. */
  predicate PointsAmountOk(v: JsValue) {
    Present(v) && ToNumber(v).Some? && ToNumber(v).value > 0.0
  }

  /** Whether each field is acceptable, in the order of `SwapFieldOrder`. */
  function SwapVerdicts(d: SwapForm): (r: seq<bool>)
    ensures |r| == 4
  {
    [ Present(d.itemId),
      Present(d.kind) && d.kind.Str? && d.kind.s in SwapTypeNames,
      (d.kind == Str("direct") ==> Present(d.offeredItemId))
        && (d.kind == Str("points") ==> PointsAmountOk(d.pointsOffered)),
      !(Truthy(d.message) && Length(d.message).Some? && Length(d.message).value > MessageMaxLength) ]
  }

  /** The checks of one field, by its position in `SwapFieldOrder`. */
  function SwapFieldCheck(d: SwapForm, i: nat): (r: Check)
    requires i < 4
    ensures r.Pass? <==> SwapVerdicts(d)[i]
    ensures r.Fail? ==> r.error.field == SwapFieldOrder(d)[i]
  {
    if i == 0 then Required(d.itemId, "itemId")
    else if i == 1 then ChoiceCheck(d.kind, SwapTypeNames, "type")
    else if i == 2 then
      if d.kind == Str("direct") then Required(d.offeredItemId, "offeredItemId")
      else if d.kind == Str("points") then
        :- Required(d.pointsOffered, "pointsOffered");
        :- IsNumber(d.pointsOffered, "pointsOffered");
        IsPositive(d.pointsOffered, "pointsOffered")
      else Pass
    else if Truthy(d.message) && Length(d.message).Some? && Length(d.message).value > MessageMaxLength then
      Fail(ValidationError("message", "Message must not exceed 500 characters"))
    else Pass
  }

  /** `Validator.validateSwapData`: an item id, a type that is "direct" or "points", an
      offered item for a direct swap or a present, numeric, positive amount for a points
      swap, and a message of at most 500 characters; the first failure is reported. */
  function ValidateSwapData(d: SwapForm): (r: Check)
    ensures r.Pass? <==> forall i | 0 <= i < 4 :: SwapVerdicts(d)[i]
    ensures r.Fail? ==> var k := FirstFalse(SwapVerdicts(d));
      k < 4 && r.error.field == SwapFieldOrder(d)[k]
  {
    var checks := seq(4, i requires 0 <= i < 4 => SwapFieldCheck(d, i));
    assert Passes(checks) == SwapVerdicts(d);
    FirstFailure(checks)
  }

  /** A message of exactly 500 characters is accepted and one of 501 is refused. */
  lemma MessageBoundInclusive(d: SwapForm, m: string)
    requires d.message == Str(m)
    ensures |m| == 500 ==> SwapFieldCheck(d, 3).Pass?
    ensures |m| == 501 ==> SwapFieldCheck(d, 3) == Fail(ValidationError("message", "Message must not exceed 500 characters"))
  {
  }
}

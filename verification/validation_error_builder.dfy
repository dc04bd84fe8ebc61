/** `validationErrorBuilder` (src/core/utils/validationErrorBuilder.ts): turns
    a field name and a kind of failure into a `{field, message}` error. */
module ValidationErrorBuilder {
  import opened Wrappers
  import opened Decimal

  /** The builder's methods, one constructor each; the arguments are the
      methods' arguments. */
  datatype MessageKind =
    | HasIncorrectValue
    | Empty
    | NotExist
    | NotString
    | NotBoolean
    | NotArray
    | NotNumber
    | MinLength(minLength: int)
    | MaxLength(maxLength: int)
    | NotNumberOrNull
    | OutOfRange(min: int, max: int)
    | NotIsoDateString
    | Custom(text: string)

  /** `ValidationFieldError`: the failing field and a readable message. */
  datatype FieldError = FieldError(field: string, message: string)

  const MinLengthPrefix := "Must have min length "
  const MaxLengthPrefix := "Must have max length "
  const RangePrefix := "Out of range. Available min: "
  const RangeSeparator := " max: "

  /** Messages of the kinds that take no argument. */
  const FixedMessages: map<string, MessageKind> := map[
    "Has incorrect value" := HasIncorrectValue,
    "Is empty" := Empty,
    "Not exist" := NotExist,
    "Is not a string type" := NotString,
    "Is not a boolean type" := NotBoolean,
    "Is not a array type" := NotArray,
    "Is not a number" := NotNumber,
    "Is not a number or null" := NotNumberOrNull,
    "Is not ISO format date string" := NotIsoDateString
  ]

  /** The kinds that take no argument. */
  predicate IsFixed(kind: MessageKind) {
    !(kind.MinLength? || kind.MaxLength? || kind.OutOfRange? || kind.Custom?)
  }

  /** The text each builder method stores in `message`. */
  function Message(kind: MessageKind): string {
    match kind
    case HasIncorrectValue => "Has incorrect value"
    case Empty => "Is empty"
    case NotExist => "Not exist"
    case NotString => "Is not a string type"
    case NotBoolean => "Is not a boolean type"
    case NotArray => "Is not a array type"
    case NotNumber => "Is not a number"
    case MinLength(n) => MinLengthPrefix + IntToString(n)
    case MaxLength(n) => MaxLengthPrefix + IntToString(n)
    case NotNumberOrNull => "Is not a number or null"
    case OutOfRange(min, max) => RangePrefix + IntToString(min) + RangeSeparator + IntToString(max)
    case NotIsoDateString => "Is not ISO format date string"
    case Custom(text) => text
  }

  /** `validationErrorBuilder(field).<kind>(...)`: the error names exactly the
      field it was built for and carries the kind's message. */
  function Build(field: string, kind: MessageKind): (e: FieldError)
    ensures e.field == field
    ensures kind.Custom? ==> e.message == kind.text
  {
    FieldError(field, Message(kind))
  }

  predicate HasPrefix(s: string, prefix: string) {
    |prefix| <= |s| && s[..|prefix|] == prefix
  }

  /** Position of the first space in `s` at or after `i`, or `|s|`. */
  function SpaceFrom(s: string, i: nat): (p: nat)
    requires i <= |s|
    ensures i <= p <= |s|
    ensures forall k :: i <= k < p ==> s[k] != ' '
    ensures p == |s| || s[p] == ' '
    decreases |s| - i
  {
    if i == |s| || s[i] == ' ' then i else SpaceFrom(s, i + 1)
  }

  /** Reads `<min> max: <max>`, the tail of an out-of-range message. */
  function ParseRange(s: string): Option<MessageKind> {
    var p := SpaceFrom(s, 0);
    var rest := s[p..];
    if IsIntegerText(s[..p]) && HasPrefix(rest, RangeSeparator)
       && IsIntegerText(rest[|RangeSeparator|..])
    then Some(OutOfRange(ParseInt(s[..p]), ParseInt(rest[|RangeSeparator|..])))
    else None
  }

  /** Recovers the kind from a message text; `None` for texts no
      argument-taking or fixed kind produces. */
  function ParseMessage(m: string): Option<MessageKind> {
    if m in FixedMessages then Some(FixedMessages[m])
    else if HasPrefix(m, MinLengthPrefix) && IsIntegerText(m[|MinLengthPrefix|..]) then
      Some(MinLength(ParseInt(m[|MinLengthPrefix|..])))
    else if HasPrefix(m, MaxLengthPrefix) && IsIntegerText(m[|MaxLengthPrefix|..]) then
      Some(MaxLength(ParseInt(m[|MaxLengthPrefix|..])))
    else if HasPrefix(m, RangePrefix) then ParseRange(m[|RangePrefix|..])
    else None
  }

  /** An integer text holds no space. */
  lemma IntegerTextHasNoSpace(s: string)
    requires IsIntegerText(s)
    ensures forall k :: 0 <= k < |s| ==> s[k] != ' '
  {
    if |s| > 0 && s[0] == '-' {
      assert forall k :: 1 <= k < |s| ==> s[k] == s[1..][k - 1];
    }
  }

  /** The tail of an out-of-range message reads back as the bounds it shows. */
  lemma ParseRangeRoundTrip(min: int, max: int)
    ensures ParseRange(IntToString(min) + RangeSeparator + IntToString(max)) == Some(OutOfRange(min, max))
  {
    var a, b := IntToString(min), IntToString(max);
    var s := a + RangeSeparator + b;
    IntegerTextHasNoSpace(a);
    assert forall k :: 0 <= k < |a| ==> s[k] == a[k];
    assert s[|a|] == ' ';
    assert SpaceFrom(s, 0) == |a|;
    assert s[..|a|] == a;
    assert s[|a|..] == RangeSeparator + b;
    IntToStringRoundTrip(min);
    IntToStringRoundTrip(max);
  }

  /** A text that does not start with `H`, `I` or `N` is no fixed message. */
  lemma NotFixedMessage(m: string)
    requires |m| > 0 && m[0] !in "HIN"
    ensures m !in FixedMessages
  {
    assert forall key :: key in FixedMessages ==> |key| > 0 && key[0] in "HIN";
  }

  lemma FixedRoundTrip(kind: MessageKind)
    requires IsFixed(kind)
    ensures ParseMessage(Message(kind)) == Some(kind)
  {
    assert Message(kind) in FixedMessages;
  }

  lemma MinLengthRoundTrip(n: int)
    ensures ParseMessage(Message(MinLength(n))) == Some(MinLength(n))
  {
    var x := IntToString(n);
    var m := MinLengthPrefix + x;
    assert m == Message(MinLength(n));
    NotFixedMessage(m);
    assert m[..|MinLengthPrefix|] == MinLengthPrefix;
    assert m[|MinLengthPrefix|..] == x;
    IntToStringRoundTrip(n);
  }

  lemma MaxLengthRoundTrip(n: int)
    ensures ParseMessage(Message(MaxLength(n))) == Some(MaxLength(n))
  {
    var x := IntToString(n);
    var m := MaxLengthPrefix + x;
    assert m == Message(MaxLength(n));
    NotFixedMessage(m);
    assert m[..|MinLengthPrefix|] == MaxLengthPrefix != MinLengthPrefix;
    assert m[|MaxLengthPrefix|..] == x;
    IntToStringRoundTrip(n);
  }

  lemma OutOfRangeRoundTrip(min: int, max: int)
    ensures ParseMessage(Message(OutOfRange(min, max))) == Some(OutOfRange(min, max))
  {
    var tail := IntToString(min) + RangeSeparator + IntToString(max);
    assert Message(OutOfRange(min, max)) == RangePrefix + tail;
    ParseRangeMessage(tail);
    ParseRangeRoundTrip(min, max);
  }

  /** A text starting with the out-of-range prefix is read as a range. */
  lemma ParseRangeMessage(tail: string)
    ensures ParseMessage(RangePrefix + tail) == ParseRange(tail)
  {
    var m := RangePrefix + tail;
    NotFixedMessage(m);
    assert m[..|MinLengthPrefix|][0] == 'O';
    assert !HasPrefix(m, MinLengthPrefix) && !HasPrefix(m, MaxLengthPrefix);
    assert m[..|RangePrefix|] == RangePrefix;
    assert m[|RangePrefix|..] == tail;
  }

  /** Every message except a custom one determines the kind that produced it:
      reading it back gives that kind. */
  lemma MessageRoundTrip(kind: MessageKind)
    requires !kind.Custom?
    ensures ParseMessage(Message(kind)) == Some(kind)
  {
    match kind
    case MinLength(n) => MinLengthRoundTrip(n);
    case MaxLength(n) => MaxLengthRoundTrip(n);
    case OutOfRange(min, max) => OutOfRangeRoundTrip(min, max);
    case _ => FixedRoundTrip(kind);
  }

  /** Errors built for different fields, or from different non-custom kinds,
      differ. */
  lemma BuildInjective(f1: string, k1: MessageKind, f2: string, k2: MessageKind)
    requires !k1.Custom? && !k2.Custom?
    requires Build(f1, k1) == Build(f2, k2)
    ensures f1 == f2 && k1 == k2
  {
    MessageRoundTrip(k1);
    MessageRoundTrip(k2);
  }

  /** The messages of the argument-less kinds are pairwise distinct. */
  lemma FixedMessagesDistinct(k1: MessageKind, k2: MessageKind)
    requires IsFixed(k1) && IsFixed(k2) && k1 != k2
    ensures Message(k1) != Message(k2)
  {
    MessageRoundTrip(k1);
    MessageRoundTrip(k2);
  }
}

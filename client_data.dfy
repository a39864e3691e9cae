/** The JavaScript values the frontend handles: property values, their
    truthiness, the `Number` and `parseInt` conversions, plain objects used
    for assignments and labs, and a module record as the browser holds it. */
module ClientData {
  import opened Optional
  import opened Text

  /** A JavaScript property value. Numbers are integers here; `NaN` is kept
      apart because `Number` produces it. */
  datatype Value = Undefined | Null | Bool(b: bool) | Num(n: int) | NaN | Str(s: string)

  /** Everything but `undefined`, `null`, `false`, `0`, `NaN` and `''` is truthy. */
  predicate Truthy(v: Value) {
    match v
    case Undefined => false
    case Null => false
    case Bool(b) => b
    case Num(n) => n != 0
    case NaN => false
    case Str(s) => s != ""
  }

  /** `Number(s)` on a string: surrounding whitespace is ignored, the empty
      string is 0, an optionally signed run of decimal digits is its value and
      anything else is NaN. */
  function StringToNumber(s: string): (r: Value)
    ensures r.Num? || r.NaN?
    ensures Trim(s) == "" ==> r == Num(0)
  {
    NumberOfTrimmed(Trim(s))
  }

  /** The reading of a string with no whitespace at either end. */
  function NumberOfTrimmed(t: string): (r: Value)
    ensures r.Num? || r.NaN?
    ensures t == "" ==> r == Num(0)
  {
    if t == "" then Num(0)
    else
      var signed := t[0] == '-' || t[0] == '+';
      var digits := if signed then t[1..] else t;
      if digits == [] || !AllDigits(digits) then NaN
      else if t[0] == '-' then Num(-(DigitsValue(digits) as int))
      else Num(DigitsValue(digits))
  }

  /** `Number` of a run of decimal digits is their value. */
  lemma StringToNumberOfDigits(s: string)
    requires s != "" && AllDigits(s)
    ensures StringToNumber(s) == Num(DigitsValue(s))
  {
    assert s[0] != '-' && s[0] != '+' by {
      assert IsDigit(s[0]);
    }
    assert NumberOfTrimmed(s) == Num(DigitsValue(s));
    DigitsTrimmed(s);
  }

  /** With a minus sign in front of the digits, `Number` gives minus their
      value. */
  lemma StringToNumberOfMinusDigits(s: string)
    requires |s| >= 2 && s[0] == '-' && AllDigits(s[1..])
    ensures StringToNumber(s) == Num(-(DigitsValue(s[1..]) as int))
  {
    assert NumberOfTrimmed(s) == Num(-(DigitsValue(s[1..]) as int));
    DigitsTrimmed(s);
  }

  /** Both decimal forms at once, for callers that cannot branch. */
  lemma StringToNumberOfDecimal(s: string)
    ensures s != "" && AllDigits(s) ==> StringToNumber(s) == Num(DigitsValue(s))
    ensures |s| >= 2 && s[0] == '-' && AllDigits(s[1..]) ==>
              StringToNumber(s) == Num(-(DigitsValue(s[1..]) as int))
  {
    if s != "" && AllDigits(s) {
      StringToNumberOfDigits(s);
    }
    if |s| >= 2 && s[0] == '-' && AllDigits(s[1..]) {
      StringToNumberOfMinusDigits(s);
    }
  }

  /** `Number` reads back a written decimal. */
  lemma StringToNumberOfNatToString(n: nat)
    ensures StringToNumber(NatToString(n)) == Num(n)
  {
    StringToNumberOfDigits(NatToString(n));
    DigitsValueOfNatToString(n);
  }

  /** `Number(v)`: always a number, possibly NaN. */
  function ToNumber(v: Value): (r: Value)
    ensures r.Num? || r.NaN?
    ensures v.Num? ==> r == v
    ensures v.Null? ==> r == Num(0)
    ensures v.Undefined? ==> r == NaN
    ensures v.NaN? ==> r == NaN
  {
    match v
    case Undefined => NaN
    case Null => Num(0)
    case Bool(b) => Num(if b then 1 else 0)
    case Num(n) => Num(n)
    case NaN => NaN
    case Str(s) => StringToNumber(s)
  }

  /** `Number(v) || 0`: the number, with NaN read as 0. */
  function NumberOrZero(v: Value): (r: int)
    ensures ToNumber(v).Num? ==> r == ToNumber(v).n
    ensures ToNumber(v).NaN? ==> r == 0
  {
    match ToNumber(v)
    case Num(n) => n
    case _ => 0
  }

  /** Text read by `Number(x) || 0`: blank text is 0, a run of digits its
      value and one behind a minus sign its negation. */
  lemma NumberOrZeroOfText(s: string)
    ensures Trim(s) == "" ==> NumberOrZero(Str(s)) == 0
    ensures s != "" && AllDigits(s) ==> NumberOrZero(Str(s)) == DigitsValue(s)
    ensures |s| >= 2 && s[0] == '-' && AllDigits(s[1..]) ==> NumberOrZero(Str(s)) == -(DigitsValue(s[1..]) as int)
  {
    assert NumberOrZero(Str(s)) == match StringToNumber(s) case Num(n) => n case _ => 0;
    if s != "" && AllDigits(s) {
      StringToNumberOfDigits(s);
    }
    if |s| >= 2 && s[0] == '-' && AllDigits(s[1..]) {
      StringToNumberOfMinusDigits(s);
    }
  }

  /** `parseInt(s)` in base ten: leading whitespace is skipped, one sign is
      allowed, and the longest run of digits after it is read; `None` is NaN. */
  function ParseInt(s: string): (r: Option<int>)
  {
    var t := TrimStart(s);
    var signed := t != [] && (t[0] == '-' || t[0] == '+');
    var digits := LeadingDigits(if signed then t[1..] else t);
    if digits == [] then None
    else if signed && t[0] == '-' then Some(-(DigitsValue(digits) as int))
    else Some(DigitsValue(digits))
  }

  /** Reading back a written index gives the index. */
  lemma ParseIntOfNatToString(n: nat)
    ensures ParseInt(NatToString(n)) == Some(n)
  {
    var s := NatToString(n);
    assert !IsWhitespace(s[0]) && s[0] != '-' && s[0] != '+' by {
      assert IsDigit(s[0]);
    }
    assert TrimStart(s) == s;
    LeadingDigitsOfDigits(s);
    DigitsValueOfNatToString(n);
  }

  /** The largest array index plus one: a larger key names an ordinary
      property rather than an element. */
  const ArrayIndexLimit: int := 4294967295

  /** A plain object such as `{ name: '', marks: null }`. */
  type Entry = map<string, Value>

  /** Reading a property; a missing one is `undefined`. */
  function Get(e: Entry, key: string): Value {
    if key in e then e[key] else Undefined
  }

  /** An array element: an object, or a hole left by writing past the end. */
  datatype Slot = Hole | Item(props: Entry)

  /** The properties of an element; a hole spreads as `{}`. */
  function PropsOf(slot: Slot): Entry {
    match slot
    case Hole => map[]
    case Item(props) => props
  }

  /** `arr[i] = { ...arr[i], [prop]: v }` and, equally, `(arr[i] ||= {})[prop]
      = v` on a copy: element `i` gets the property, an array too short is
      first extended with holes, and nothing else changes. */
  function SetProp(slots: seq<Slot>, i: nat, prop: string, v: Value): (r: seq<Slot>)
    ensures |r| == if i < |slots| then |slots| else i + 1
    ensures r[i] == Item(PropsOf(if i < |slots| then slots[i] else Hole)[prop := v])
    ensures forall j :: 0 <= j < |r| && j != i ==> r[j] == if j < |slots| then slots[j] else Hole
  {
    var padded := if i < |slots| then slots else slots + seq(i + 1 - |slots|, _ => Hole);
    padded[i := Item(PropsOf(padded[i])[prop := v])]
  }

  /** A module record as the page holds it after reading the API's JSON; a
      field that is absent is `None`. */
  datatype ClientRecord = ClientRecord(
    id: string,
    moduleName: Option<string>,
    moduleCode: Option<string>,
    lectureHours: Option<int>,
    attendedHours: Option<int>,
    assignments: Option<seq<Slot>>,
    labs: Option<seq<Slot>>)
}

/** The module record of the backend: its field normalisation (trim, upper
    case), the validators Mongoose runs when a record is saved, the unique
    (moduleCode, user) key, and the derived attendance percentage. */
module ModuleSchema {
  import opened Text

  type UserId = nat
  type ModuleId = nat

  const MaxNameLength: nat := 100
  const MaxCodeLength: nat := 20

  const NameRequired := "Module name is required"
  const NameTooLong := "Module name cannot exceed 100 characters"
  const CodeRequired := "Module code is required"
  const CodeTooLong := "Module code cannot exceed 20 characters"
  const LectureNegative := "Lecture hours cannot be negative"
  const AttendedNegative := "Attended hours cannot be negative"

  /** A stored module. `user` is the owner's id. */
  datatype ModuleDoc = ModuleDoc(
    id: ModuleId,
    moduleName: string,
    moduleCode: string,
    lectureHours: int,
    attendedHours: int,
    user: UserId)

  /** The `moduleCode` setters: trim, then upper-case. The code is empty
      exactly when the input was blank, and is never longer than the input. */
  function NormaliseCode(raw: string): (r: string)
    ensures r == [] <==> AllWhitespace(raw)
    ensures |r| <= |raw|
  {
    TrimEmptyIff(raw);
    ToUpper(Trim(raw))
  }

  /** Upper-casing keeps whitespace and non-whitespace apart. */
  lemma UpperCharWhitespace(c: char)
    ensures IsWhitespace(UpperChar(c)) <==> IsWhitespace(c)
  {
  }

  /** The shape of a stored code: trimmed and without lower-case letters. */
  predicate IsNormalCode(s: string) {
    IsTrimmed(s) && forall i :: 0 <= i < |s| ==> !IsAsciiLower(s[i])
  }

  /** Upper-casing a trimmed string gives a code of that shape. */
  lemma UpperOfTrimmedIsNormal(t: string)
    requires IsTrimmed(t)
    ensures IsNormalCode(ToUpper(t))
  {
    var u := ToUpper(t);
    if t != [] {
      UpperCharWhitespace(t[0]);
      UpperCharWhitespace(t[|t| - 1]);
    }
    forall i | 0 <= i < |u|
      ensures !IsAsciiLower(u[i])
    {
      assert u[i] == UpperChar(t[i]);
    }
  }

  /** The setters always produce a code of that shape. */
  lemma NormaliseCodeIsNormal(raw: string)
    ensures IsNormalCode(NormaliseCode(raw))
  {
    TrimEdges(raw);
    UpperOfTrimmedIsNormal(Trim(raw));
  }

  /** The setters leave a code of that shape unchanged. */
  lemma NormalCodeFixed(s: string)
    requires IsNormalCode(s)
    ensures NormaliseCode(s) == s
  {
    TrimmedFixed(s);
  }

  /** A normalised code is already normalised: storing it again does not
      change it. */
  lemma NormaliseCodeIdempotent(raw: string)
    ensures NormaliseCode(NormaliseCode(raw)) == NormaliseCode(raw)
  {
    NormaliseCodeIsNormal(raw);
    NormalCodeFixed(NormaliseCode(raw));
  }

  /** The validation messages Mongoose collects when a record with these
      (already normalised) field values is saved, in schema path order: at
      most one per path. `required` rejects the empty string, `maxlength`
      compares JavaScript's UTF-16 length, `min: 0` rejects negative hours.
      No rule relates the two hour counters. */
  function FieldErrors(name: string, code: string, lecture: int, attended: int): (errs: seq<string>)
    ensures |errs| <= 4
    ensures NameRequired in errs <==> name == []
    ensures NameTooLong in errs <==> Utf16Length(name) > MaxNameLength
    ensures CodeRequired in errs <==> code == []
    ensures CodeTooLong in errs <==> Utf16Length(code) > MaxCodeLength
    ensures LectureNegative in errs <==> lecture < 0
    ensures AttendedNegative in errs <==> attended < 0
  {
    (if |name| == 0 then [NameRequired] else if Utf16Length(name) > MaxNameLength then [NameTooLong] else [])
    + (if |code| == 0 then [CodeRequired] else if Utf16Length(code) > MaxCodeLength then [CodeTooLong] else [])
    + (if lecture < 0 then [LectureNegative] else [])
    + (if attended < 0 then [AttendedNegative] else [])
  }

  /** The invariant of every stored module: normalised, within the length
      caps, and with non-negative hour counters. */
  predicate WellFormed(d: ModuleDoc) {
    && IsTrimmed(d.moduleName) && 0 < |d.moduleName| && Utf16Length(d.moduleName) <= MaxNameLength
    && IsNormalCode(d.moduleCode) && 0 < |d.moduleCode| && Utf16Length(d.moduleCode) <= MaxCodeLength
    && d.lectureHours >= 0 && d.attendedHours >= 0
  }

  /** The validators report nothing exactly when every length and sign
      rule holds. */
  lemma FieldErrorsEmptyIff(name: string, code: string, lecture: int, attended: int)
    ensures FieldErrors(name, code, lecture, attended) == []
            <==> (&& 0 < |name| && Utf16Length(name) <= MaxNameLength
                  && 0 < |code| && Utf16Length(code) <= MaxCodeLength
                  && lecture >= 0 && attended >= 0)
  {
    var a := if |name| == 0 then [NameRequired] else if Utf16Length(name) > MaxNameLength then [NameTooLong] else [];
    var b := if |code| == 0 then [CodeRequired] else if Utf16Length(code) > MaxCodeLength then [CodeTooLong] else [];
    var c := if lecture < 0 then [LectureNegative] else [];
    var e := if attended < 0 then [AttendedNegative] else [];
    assert |FieldErrors(name, code, lecture, attended)| == |a| + |b| + |c| + |e|;
  }

  /** A record built from raw input by the setters is well formed exactly when
      the validators report nothing. */
  lemma ValidatorsAcceptIff(id: ModuleId, rawName: string, rawCode: string, lecture: int, attended: int, user: UserId)
    ensures var d := ModuleDoc(id, Trim(rawName), NormaliseCode(rawCode), lecture, attended, user);
            FieldErrors(d.moduleName, d.moduleCode, lecture, attended) == [] <==> WellFormed(d)
  {
    var d := ModuleDoc(id, Trim(rawName), NormaliseCode(rawCode), lecture, attended, user);
    TrimEdges(rawName);
    NormaliseCodeIsNormal(rawCode);
    FieldErrorsEmptyIff(d.moduleName, d.moduleCode, lecture, attended);
  }

  /** A name or code that is blank after trimming is reported as missing,
      the name first. */
  lemma BlankIsRequired(rawName: string, rawCode: string, lecture: int, attended: int)
    ensures AllWhitespace(rawName)
            ==> FieldErrors(Trim(rawName), NormaliseCode(rawCode), lecture, attended)[0] == NameRequired
    ensures !AllWhitespace(rawName) && Utf16Length(Trim(rawName)) <= MaxNameLength && AllWhitespace(rawCode)
            ==> FieldErrors(Trim(rawName), NormaliseCode(rawCode), lecture, attended)[0] == CodeRequired
  {
    TrimEmptyIff(rawName);
    TrimEmptyIff(rawCode);
    var n := Trim(rawName);
  }

  // ---------------------------------------------------------------------------
  // Attendance percentage

  /** `Math.round(num / den)` on exact rationals: the nearest integer, with
      halves rounded up. */
  function RoundHalfUp(num: int, den: int): (r: int)
    requires den > 0
    ensures 2 * den * r - den <= 2 * num < 2 * den * r + den
  {
    var q := (2 * num + den) / (2 * den);
    assert 2 * num + den == (2 * den) * q + (2 * num + den) % (2 * den);
    q
  }

  /** The rounding bounds pin the result down: no other integer is within
      half a unit on the correct side. */
  lemma RoundHalfUpUnique(num: int, den: int, r: int)
    requires den > 0
    requires 2 * den * r - den <= 2 * num < 2 * den * r + den
    ensures r == RoundHalfUp(num, den)
  {
    var q := RoundHalfUp(num, den);
    if r < q {
      MulMonotone(2 * den, r + 1, q);
    } else if r > q {
      MulMonotone(2 * den, q + 1, r);
    }
  }

  lemma MulMonotone(k: int, a: int, b: int)
    requires k > 0 && a <= b
    ensures k * a <= k * b
  {
  }

  /** The `attendancePercentage` virtual: 0 without lectures, otherwise
      100 * attended / lecture rounded to the nearest integer, halves up (a
      negative lecture count divides as well; the validators reject it
      before a record is stored). */
  function AttendancePercentage(lectureHours: int, attendedHours: int): (p: int)
    ensures lectureHours == 0 ==> p == 0
    ensures lectureHours > 0
            ==> 2 * lectureHours * p - lectureHours <= 2 * (100 * attendedHours) < 2 * lectureHours * p + lectureHours
    ensures lectureHours < 0
            ==> 2 * (-lectureHours) * p - (-lectureHours) <= 2 * (-100 * attendedHours) < 2 * (-lectureHours) * p + (-lectureHours)
  {
    if lectureHours == 0 then 0
    else if lectureHours > 0 then RoundHalfUp(100 * attendedHours, lectureHours)
    else RoundHalfUp(-100 * attendedHours, -lectureHours)
  }

  /** Full attendance or less never shows more than 100 per cent, and no
      attendance never shows less than 0; with no lectures it is 0. */
  lemma {:induction false} PercentageBounds(lectureHours: int, attendedHours: int)
    requires 0 <= attendedHours <= lectureHours
    ensures 0 <= AttendancePercentage(lectureHours, attendedHours) <= 100
  {
    if lectureHours > 0 {
      var p := AttendancePercentage(lectureHours, attendedHours);
      if p > 100 {
        MulMonotone(2 * lectureHours, 101, p);
      }
      if p < 0 {
        MulMonotone(2 * lectureHours, p, -1);
      }
    }
  }

  /** Attendance is not capped: attending at least every scheduled hour shows
      at least 100 per cent, and the validators accept more attended than
      scheduled hours (they judge each counter on its own sign). */
  lemma {:induction false} PercentageUncapped(name: string, code: string, lectureHours: int, attendedHours: int)
    requires 0 < lectureHours <= attendedHours
    ensures AttendancePercentage(lectureHours, attendedHours) >= 100
    ensures FieldErrors(name, code, lectureHours, attendedHours) == FieldErrors(name, code, lectureHours, 0)
  {
    var p := AttendancePercentage(lectureHours, attendedHours);
    MulMonotone(200, lectureHours, attendedHours);
    if p <= 99 {
      MulMonotone(2 * lectureHours, p, 99);
    }
  }

  /** Half of 30 lecture hours is 50 per cent. */
  lemma PercentageExample()
    ensures AttendancePercentage(30, 15) == 50
    ensures AttendancePercentage(0, 7) == 0
    ensures AttendancePercentage(3, 2) == 67
    ensures AttendancePercentage(10, 12) == 120
  {
  }
}

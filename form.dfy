/** The client-side validation of the hackathon registration form (form.js): the per-field rules,
    the whole-form pass with its date rule, the end-date clearing on a new start date, and the
    description counter. */
module FormValidation {
  import opened Seqs
  import opened JsStrings
  import opened Catalog

  // ---------------------------------------------------------------- fields

  /** The `type` attribute of an input, as far as the rules distinguish it. */
  datatype InputType = Email | Tel | OtherType

  /** An input as `validateField` sees it: its type, its `required` attribute and its raw value. */
  datatype Field = Field(kind: InputType, required: bool, value: string)

  datatype FieldError = Required | InvalidEmail | InvalidPhone

  datatype Verdict = Accepted | Rejected(error: FieldError)

  // ---------------------------------------------------------------- the email rule

  /** A character `[^\s@]` matches. */
  predicate EmailChar(c: char)
  {
    !IsWhitespace(c) && c != '@'
  }

  predicate AllEmailChars(s: string)
  {
    forall i :: 0 <= i < |s| ==> EmailChar(s[i])
  }

  /** A match of `^[^\s@]+@[^\s@]+\.[^\s@]+$`: an `@` at `a` and a `.` at `d` splitting `s` into
      three non-empty runs, with every other character matching `[^\s@]`. */
  ghost predicate EmailPattern(s: string)
  {
    exists a, d :: EmailSplit(s, a, d)
  }

  ghost predicate EmailSplit(s: string, a: int, d: int)
  {
    && 0 < a && a + 1 < d && d + 1 < |s|
    && s[a] == '@' && s[d] == '.'
    && forall i :: 0 <= i < |s| && i != a ==> EmailChar(s[i])
  }

  /** Position of the first `c` in `s`, or `|s|` when there is none. */
  function IndexOf(s: string, c: char): (k: nat)
    ensures k <= |s|
    ensures k < |s| ==> s[k] == c
    ensures forall i :: 0 <= i < k ==> s[i] != c
  {
    if s == [] then 0
    else if s[0] == c then 0
    else 1 + IndexOf(s[1..], c)
  }

  /** The email rule, decided by scanning for the `@` and then for a `.` inside the domain. */
  predicate IsValidEmail(s: string)
  {
    var a := IndexOf(s, '@');
    && 0 < a < |s|
    && AllEmailChars(s[..a])
    && var domain := s[a + 1..];
       && |domain| >= 3
       && AllEmailChars(domain)
       && '.' in domain[1..|domain| - 1]
  }

  /** The scan accepts exactly the strings the regular expression matches. */
  lemma EmailAgrees(s: string)
    ensures IsValidEmail(s) <==> EmailPattern(s)
  {
    var a := IndexOf(s, '@');
    if IsValidEmail(s) {
      var domain := s[a + 1..];
      var m :| 0 <= m < |domain[1..|domain| - 1]| && domain[1..|domain| - 1][m] == '.';
      var d := a + 2 + m;
      assert s[d] == domain[m + 1];
      forall i | 0 <= i < |s| && i != a ensures EmailChar(s[i]) {
        if i < a {
          assert s[i] == s[..a][i];
        } else {
          assert s[i] == domain[i - a - 1];
        }
      }
      assert EmailSplit(s, a, d);
    }
    if EmailPattern(s) {
      var a', d :| EmailSplit(s, a', d);
      assert a == a';
      var domain := s[a + 1..];
      assert domain[1..|domain| - 1][d - a - 2] == '.';
      forall i | 0 <= i < |domain| ensures EmailChar(domain[i]) {
        assert domain[i] == s[a + 1 + i];
      }
      forall i | 0 <= i < a ensures EmailChar(s[..a][i]) {
        assert s[..a][i] == s[i];
      }
    }
  }

  // ---------------------------------------------------------------- the phone rule

  /** `\d`: an ASCII digit. */
  predicate IsDigit(c: char)
  {
    '0' <= c <= '9'
  }

  /** A match of `^[\+]?[1-9][\d]{0,15}$`: the optional `+` takes `p` characters, then a digit 1-9,
      then up to fifteen digits. */
  ghost predicate PhonePattern(s: string)
  {
    exists p :: PhoneSplit(s, p)
  }

  ghost predicate PhoneSplit(s: string, p: int)
  {
    && p < |s| && (p == 0 || (p == 1 && s[0] == '+'))
    && '1' <= s[p] <= '9'
    && |s| - (p + 1) <= 15
    && forall i :: p < i < |s| ==> IsDigit(s[i])
  }

  predicate AllDigits(s: string)
  {
    forall i :: 0 <= i < |s| ==> IsDigit(s[i])
  }

  /** The phone rule, decided by dropping a leading `+` and checking what remains. */
  predicate IsValidPhone(s: string)
  {
    var body := if s != [] && s[0] == '+' then s[1..] else s;
    1 <= |body| <= 16 && '1' <= body[0] <= '9' && AllDigits(body[1..])
  }

  /** The digit test accepts exactly the strings the regular expression matches. */
  lemma PhoneAgrees(s: string)
    ensures IsValidPhone(s) <==> PhonePattern(s)
  {
    var p := if s != [] && s[0] == '+' then 1 else 0;
    var body := s[p..];
    if IsValidPhone(s) {
      forall i | p < i < |s| ensures IsDigit(s[i]) {
        assert s[i] == body[1..][i - p - 1];
      }
      assert PhoneSplit(s, p);
    }
    if PhonePattern(s) {
      var q :| PhoneSplit(s, q);
      assert q == p;
      forall i | 0 <= i < |body[1..]| ensures IsDigit(body[1..][i]) {
        assert body[1..][i] == s[p + 1 + i];
      }
    }
  }

  // ---------------------------------------------------------------- validateField

  /** `validateField`: the value is trimmed; a blank required field fails first; a non-blank email
      or phone field must then satisfy its rule, the phone rule after all white space is removed. */
  function ValidateField(f: Field): (r: Verdict)
    ensures r == Rejected(Required) <==> f.required && AllWhitespace(f.value)
    ensures r == Rejected(InvalidEmail) <==>
              && !AllWhitespace(f.value) && f.kind == Email && !EmailPattern(Trim(f.value))
    ensures r == Rejected(InvalidPhone) <==>
              && !AllWhitespace(f.value) && f.kind == Tel && !PhonePattern(RemoveWhitespace(Trim(f.value)))
    ensures AllWhitespace(f.value) && !f.required ==> r == Accepted
  {
    var value := Trim(f.value);
    EmailAgrees(value);
    PhoneAgrees(RemoveWhitespace(value));
    if f.required && value == [] then Rejected(Required)
    else if f.kind == Email && value != [] && !IsValidEmail(value) then Rejected(InvalidEmail)
    else if f.kind == Tel && value != [] && !IsValidPhone(RemoveWhitespace(value)) then Rejected(InvalidPhone)
    else Accepted
  }

  /** A telephone field is accepted whenever its value, trimmed and stripped of white space, is a
      phone number, whatever its `required` attribute. */
  lemma PhoneIgnoresSpaces(f: Field)
    requires f.kind == Tel && PhonePattern(RemoveWhitespace(Trim(f.value)))
    ensures ValidateField(f) == Accepted
  {
  }

  /** Only the trimmed value is judged: a field holding its own trimmed value gets the same verdict. */
  lemma PaddingIgnored(f: Field)
    ensures ValidateField(Field(f.kind, f.required, Trim(f.value))) == ValidateField(f)
  {
    TrimIdempotent(f.value);
  }

  /** White space inside a telephone number does not matter either: `+1 555 0100` is judged as
      `+15550100`. */
  lemma PhoneIgnoresInnerSpace(required: bool, x: string, w: string, y: string)
    requires x != [] && !IsWhitespace(x[0])
    requires y != [] && !IsWhitespace(y[|y| - 1])
    requires AllWhitespace(w)
    ensures ValidateField(Field(Tel, required, x + w + y)) == ValidateField(Field(Tel, required, x + y))
  {
    var spaced := x + w + y;
    assert spaced[0] == x[0] && spaced[|spaced| - 1] == y[|y| - 1];
    assert (x + y)[0] == x[0] && (x + y)[|x + y| - 1] == y[|y| - 1];
    TrimUnpadded(spaced);
    TrimUnpadded(x + y);
    RemoveWhitespaceBetween(x, w, y);
  }

  // ---------------------------------------------------------------- validateForm

  /** `new Date(end) <= new Date(start)` for two non-empty values; `instant` parses a value (`None`
      for an invalid date, which compares false). */
  predicate DatesConflict(start: string, end: string, instant: string -> Option<int>)
  {
    && start != [] && end != []
    && instant(start).Some? && instant(end).Some?
    && instant(end).value <= instant(start).value
  }

  /** A field `validateForm` counts as failed: `validateForm` only visits the required fields. */
  predicate FieldFails(f: Field)
  {
    f.required && ValidateField(f).Rejected?
  }

  /** `validateForm`: every required field is validated, none skipped after a failure, and the form
      passes exactly when none fails and the dates do not conflict. `failed` lists the failing
      fields' positions in form order. */
  method ValidateForm(fields: seq<Field>, start: string, end: string, instant: string -> Option<int>)
    returns (isValid: bool, failed: seq<nat>)
    ensures forall k: int :: k in failed <==> 0 <= k < |fields| && FieldFails(fields[k])
    ensures forall i, j :: 0 <= i < j < |failed| ==> failed[i] < failed[j]
    ensures isValid <==> failed == [] && !DatesConflict(start, end, instant)
  {
    isValid := true;
    failed := [];
    for k := 0 to |fields|
      invariant failed == Positions(FieldFails, fields, k)
      invariant isValid <==> failed == []
    {
      if fields[k].required {
        var verdict := ValidateField(fields[k]);
        if verdict.Rejected? {
          isValid := false;
          failed := failed + [k];
        }
      }
    }
    PositionsSpec(FieldFails, fields, |fields|);
    if start != [] && end != [] {
      var s, e := instant(start), instant(end);
      if s.Some? && e.Some? && e.value <= s.value {
        isValid := false;
      }
    }
  }

  // ---------------------------------------------------------------- the date inputs

  /** The end value the start-date `change` handler leaves: cleared when it sorts before the new
      (non-empty) start value. */
  function ClearedEnd(start: string, end: string): (r: string)
    ensures r == end || r == []
    ensures start != [] && r != [] ==> !Less(r, start)
    ensures r == [] && end != [] ==> start != [] && Less(end, start)
  {
    if start != [] && end != [] && Less(end, start) then [] else end
  }

  /** After the handler, a remaining end value never sorts before the start value. */
  lemma ClearedEndNotBefore(start: string, end: string)
    requires start != [] && ClearedEnd(start, end) != []
    ensures ClearedEnd(start, end) == start || Less(start, ClearedEnd(start, end))
  {
    LessTotal(start, end);
  }

  /** The start and end date-time inputs with the end input's `min` attribute. */
  class DateInputs {
    var startValue: string
    var endValue: string
    var endMin: string

    constructor (startValue: string, endValue: string, endMin: string)
      ensures this.startValue == startValue && this.endValue == endValue && this.endMin == endMin
    {
      this.startValue := startValue;
      this.endValue := endValue;
      this.endMin := endMin;
    }

    /** The start input's `change` handler. */
    method OnStartDateChange()
      modifies this`endValue, this`endMin
      ensures startValue == [] ==> endValue == old(endValue) && endMin == old(endMin)
      ensures startValue != [] ==> endMin == startValue && endValue == ClearedEnd(startValue, old(endValue))
    {
      if startValue != [] {
        endMin := startValue;
        if endValue != [] && Less(endValue, startValue) {
          endValue := [];
        }
      }
    }
  }

  // ---------------------------------------------------------------- the description counter

  const DescriptionLimit: int := 500
  const WarningBelow: int := 50

  /** JavaScript's `length`: UTF-16 code units, two for a character outside the Basic Multilingual Plane. */
  function Utf16Length(s: string): (n: nat)
    ensures |s| <= n <= 2 * |s|
    ensures (forall i :: 0 <= i < |s| ==> s[i] <= '\U{FFFF}') ==> n == |s|
  {
    if s == [] then 0 else (if s[0] <= '\U{FFFF}' then 1 else 2) + Utf16Length(s[1..])
  }

  datatype Counter = Counter(remaining: int, warning: bool)

  /** `updateCounter`: characters left of the 500, shown in the warning colour once fewer than 50 remain. */
  function UpdateCounter(description: string): (c: Counter)
    ensures c.remaining + Utf16Length(description) == DescriptionLimit
    ensures c.warning <==> Utf16Length(description) > DescriptionLimit - WarningBelow
    ensures |description| <= 225 ==> !c.warning
  {
    var remaining := DescriptionLimit - Utf16Length(description);
    Counter(remaining, remaining < WarningBelow)
  }
}

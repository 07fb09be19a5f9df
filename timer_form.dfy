/**
 The "new timer" form and timer creation: the form fields, how the duration text
 field turns its text into a number (`parseInt(text) || 0`), and `createTimer`,
 which appends a fresh record when the name is non-empty and the duration positive.
 */
module TimerForm {
  import opened Wrappers
  import opened Decimal
  import opened TimerModel

  datatype Form = Form(name: string, duration: int, category: string)

  /** The form's initial and post-create value `{ name: '', duration: 0, category: '' }`. */
  const BlankForm: Form := Form("", 0, "")

  /** The picker's fixed choices; creation does not check the category against them. */
  const AvailableCategories: seq<string> := ["Workout", "Study", "Break", "Personal", "Office"]

  // ---------------------------------------------------------------- parseInt

  /** The characters JavaScript's `parseInt` skips at the start (white space and line terminators). */
  predicate IsJsSpace(c: char) {
    || c == '\t' || c == '\n' || c == '\U{000B}' || c == '\U{000C}' || c == '\r' || c == ' '
    || c == '\U{00A0}' || c == '\U{1680}' || ('\U{2000}' <= c <= '\U{200A}')
    || c == '\U{2028}' || c == '\U{2029}' || c == '\U{202F}' || c == '\U{205F}'
    || c == '\U{3000}' || c == '\U{FEFF}'
  }

  function SkipSpace(s: string): (r: string)
    ensures |r| <= |s| && r == s[|s| - |r|..]
    ensures r != [] ==> !IsJsSpace(r[0])
    ensures forall i :: 0 <= i < |s| - |r| ==> IsJsSpace(s[i])
  {
    if s != [] && IsJsSpace(s[0]) then SkipSpace(s[1..]) else s
  }

  /** The longest prefix of `s` made of digits of the given base (10 or 16). */
  function DigitPrefix(base: nat, s: string): (r: string)
    ensures r <= s && DigitsIn(base, r)
    ensures |r| < |s| ==> !(IsHexDigit(s[|r|]) && DigitValue(s[|r|]) < base)
  {
    if s != [] && IsHexDigit(s[0]) && DigitValue(s[0]) < base then [s[0]] + DigitPrefix(base, s[1..]) else []
  }

  /** The unsigned part: hexadecimal digits after "0x"/"0X", else decimal digits, as far as they go. */
  function ParseMagnitude(body: string): (r: Option<int>)
    ensures r.Some? ==> r.value >= 0
  {
    if |body| >= 2 && body[0] == '0' && (body[1] == 'x' || body[1] == 'X') then
      var digits := DigitPrefix(16, body[2..]);
      if digits == [] then None else Some(ValueIn(16, digits))
    else
      var digits := DigitPrefix(10, body);
      if digits == [] then None else Some(ValueIn(10, digits))
  }

  /**
   `parseInt(text)` with no radix: skip white space, read an optional sign, then
   the magnitude. None stands for NaN, the result when no digit follows.
   */
  function ParseInt(text: string): (r: Option<int>)
    ensures SkipSpace(text) == [] ==> r == None
    ensures r.Some? && r.value < 0 ==> SkipSpace(text)[0] == '-'
  {
    var s := SkipSpace(text);
    if s != [] && s[0] == '-' then
      match ParseMagnitude(s[1..])
      case None => None
      case Some(m) => Some(-m)
    else if s != [] && s[0] == '+' then ParseMagnitude(s[1..])
    else ParseMagnitude(s)
  }

  /** `parseInt(text) || 0`: NaN and zero both become 0. */
  function DurationFromText(text: string): (d: int)
    ensures ParseInt(text).Some? ==> d == ParseInt(text).value
    ensures ParseInt(text) == None ==> d == 0
  {
    match ParseInt(text)
    case None => 0
    case Some(v) => v
  }

  lemma NoLeadingDigitIsNaN(body: string)
    requires body == [] || !IsDigit(body[0])
    ensures ParseMagnitude(body) == None
  {
  }

  /** A text with no decimal digit in it reads as 0. */
  lemma NoDigitReadsZero(text: string)
    requires forall i :: 0 <= i < |text| ==> !IsDigit(text[i])
    ensures DurationFromText(text) == 0
  {
    var s := SkipSpace(text);
    if s != [] {
      assert s[0] == text[|text| - |s|];
      if |s| > 1 {
        assert s[1..][0] == text[|text| - |s| + 1];
      }
      NoLeadingDigitIsNaN(s[1..]);
    }
    NoLeadingDigitIsNaN(s);
  }

  lemma AllDigitsPrefix(s: string)
    requires AllDigits(s)
    ensures DigitPrefix(10, s) == s
  {
    if s != [] {
      AllDigitsPrefix(s[1..]);
    }
  }

  lemma DecimalMagnitude(n: nat)
    ensures ParseMagnitude(NatToString(n)) == Some(n)
  {
    var digits := NatToString(n);
    NatToStringValue(n);
    AllDigitsPrefix(digits);
    assert |digits| >= 2 ==> IsDigit(digits[1]);
  }

  /** Leading white space is skipped up to the first other character. */
  lemma {:induction false} SkipLeadingSpace(ws: string, rest: string)
    requires forall i :: 0 <= i < |ws| ==> IsJsSpace(ws[i])
    requires rest == [] || !IsJsSpace(rest[0])
    ensures SkipSpace(ws + rest) == rest
  {
    if ws == [] {
      assert ws + rest == rest;
    } else {
      assert (ws + rest)[1..] == ws[1..] + rest;
      SkipLeadingSpace(ws[1..], rest);
    }
  }

  /** Digits of the base are read up to the first character that is not one. */
  lemma {:induction false} DigitPrefixStops(base: nat, digits: string, tail: string)
    requires DigitsIn(base, digits)
    requires tail == [] || !(IsHexDigit(tail[0]) && DigitValue(tail[0]) < base)
    ensures DigitPrefix(base, digits + tail) == digits
  {
    if digits == [] {
      assert digits + tail == tail;
    } else {
      assert (digits + tail)[1..] == digits[1..] + tail;
      DigitPrefixStops(base, digits[1..], tail);
    }
  }

  /** The number a sign ("", "+" or "-") gives to a magnitude. */
  function Signed(sign: string, m: int): int
  {
    if sign == "-" then -m else m
  }

  /**
   After white space and a sign, `parseInt` reads the magnitude of the rest,
   provided the rest starts with neither white space nor a sign.
   */
  lemma {:induction false} ParseIntSigned(ws: string, sign: string, body: string)
    requires forall i :: 0 <= i < |ws| ==> IsJsSpace(ws[i])
    requires sign == "" || sign == "+" || sign == "-"
    requires body != [] && !IsJsSpace(body[0]) && body[0] != '+' && body[0] != '-'
    ensures ParseMagnitude(body) == None ==> ParseInt(ws + sign + body) == None
    ensures ParseMagnitude(body).Some? ==>
              ParseInt(ws + sign + body) == Some(Signed(sign, ParseMagnitude(body).value))
  {
    var rest := sign + body;
    assert ws + sign + body == ws + rest;
    assert rest[0] == if sign == "" then body[0] else sign[0];
    SkipLeadingSpace(ws, rest);
    SignedRead(ws + rest, sign, body);
  }

  /** How `parseInt` continues once the skipped text starts with an optional sign. */
  lemma {:induction false} SignedRead(text: string, sign: string, body: string)
    requires sign == "" || sign == "+" || sign == "-"
    requires body != [] && body[0] != '+' && body[0] != '-'
    requires SkipSpace(text) == sign + body
    ensures ParseMagnitude(body) == None ==> ParseInt(text) == None
    ensures ParseMagnitude(body).Some? ==> ParseInt(text) == Some(Signed(sign, ParseMagnitude(body).value))
  {
    if sign == "" {
      assert sign + body == body;
      UnsignedRead(text, body);
    } else {
      assert (sign + body)[0] == sign[0] && (sign + body)[1..] == body;
      SignRead(text, sign[0], body);
    }
  }

  /** No sign: the skipped text is the magnitude. */
  lemma {:induction false} UnsignedRead(text: string, body: string)
    requires body != [] && body[0] != '+' && body[0] != '-'
    requires SkipSpace(text) == body
    ensures ParseInt(text) == ParseMagnitude(body)
  {
  }

  /** A sign: it is taken off, and `-` negates what follows. */
  lemma {:induction false} SignRead(text: string, sign: char, body: string)
    requires sign == '+' || sign == '-'
    requires |SkipSpace(text)| >= 1 && SkipSpace(text)[0] == sign && SkipSpace(text)[1..] == body
    ensures ParseMagnitude(body) == None ==> ParseInt(text) == None
    ensures ParseMagnitude(body).Some? ==>
              ParseInt(text) == Some(if sign == '-' then -ParseMagnitude(body).value else ParseMagnitude(body).value)
  {
    var m := ParseMagnitude(body);
    if sign == '-' {
      assert ParseInt(text) == match m case None => None case Some(v) => Some(-v);
    } else {
      assert ParseInt(text) == m;
    }
  }

  /** Decimal digits followed by a non-digit are read as their value. */
  lemma {:induction false} DecimalDigitsRead(digits: string, tail: string)
    requires digits != [] && DigitsIn(10, digits)
    requires tail == [] || !IsDigit(tail[0])
    requires digits == "0" && tail != [] ==> tail[0] != 'x' && tail[0] != 'X'
    ensures ParseMagnitude(digits + tail) == Some(ValueIn(10, digits))
  {
    DigitPrefixStops(10, digits, tail);
    var body := digits + tail;
    assert body[0] == digits[0];
    if |digits| >= 2 {
      assert body[1] == digits[1] && IsHexDigit(digits[1]);
    }
  }

  /** "0x" or "0X" and hexadecimal digits followed by a non-digit are read as their value. */
  lemma {:induction false} HexDigitsRead(x: char, digits: string, tail: string)
    requires x == 'x' || x == 'X'
    requires digits != [] && DigitsIn(16, digits)
    requires tail == [] || !IsHexDigit(tail[0])
    ensures ParseMagnitude(['0', x] + digits + tail) == Some(ValueIn(16, digits))
  {
    var rest := digits + tail;
    var body := ['0', x] + rest;
    assert ['0', x] + digits + tail == body;
    assert body[0] == '0' && body[1] == x && body[2..] == rest;
    DigitPrefixStops(16, digits, tail);
    assert DigitPrefix(16, body[2..]) == digits;
  }

  /**
   `parseInt` on typed decimal text: leading white space, an optional sign, then
   decimal digits (leading zeros allowed) followed by anything that is not a
   digit. The digits' value is read, with the sign. The one excluded shape is a
   lone "0" followed by 'x' or 'X', which is the hexadecimal prefix.
   */
  lemma {:induction false} ParseIntDecimal(ws: string, sign: string, digits: string, tail: string)
    requires forall i :: 0 <= i < |ws| ==> IsJsSpace(ws[i])
    requires sign == "" || sign == "+" || sign == "-"
    requires digits != [] && DigitsIn(10, digits)
    requires tail == [] || !IsDigit(tail[0])
    requires digits == "0" && tail != [] ==> tail[0] != 'x' && tail[0] != 'X'
    ensures ParseInt(ws + sign + digits + tail) == Some(Signed(sign, ValueIn(10, digits)))
  {
    assert ws + sign + digits + tail == ws + sign + (digits + tail);
    assert (digits + tail)[0] == digits[0];
    ParseIntSigned(ws, sign, digits + tail);
    DecimalDigitsRead(digits, tail);
  }

  /**
   `parseInt` on hexadecimal text: leading white space, an optional sign, "0x" or
   "0X", then hexadecimal digits up to the first character that is not one.
   */
  lemma {:induction false} ParseIntHex(ws: string, sign: string, x: char, digits: string, tail: string)
    requires forall i :: 0 <= i < |ws| ==> IsJsSpace(ws[i])
    requires sign == "" || sign == "+" || sign == "-"
    requires x == 'x' || x == 'X'
    requires digits != [] && DigitsIn(16, digits)
    requires tail == [] || !IsHexDigit(tail[0])
    ensures ParseInt(ws + sign + ['0', x] + digits + tail) == Some(Signed(sign, ValueIn(16, digits)))
  {
    var body := ['0', x] + digits + tail;
    assert ws + sign + ['0', x] + digits + tail == ws + sign + body;
    ParseIntSigned(ws, sign, body);
    HexDigitsRead(x, digits, tail);
  }

  /**
   The duration field shows `duration.toString()`; reading that text back gives the
   same number, so an untouched field never changes the stored duration.
   */
  lemma DurationTextRoundTrip(n: int)
    ensures DurationFromText(IntToString(n)) == n
  {
    var s := IntToString(n);
    assert !IsJsSpace(s[0]);
    assert SkipSpace(s) == s;
    if n < 0 {
      assert s[1..] == NatToString(-n);
      DecimalMagnitude(-n);
    } else {
      DecimalMagnitude(n);
    }
  }

  // ---------------------------------------------------------------- form updates

  /** The name field's `onChangeText`. */
  function WithName(f: Form, text: string): (r: Form)
    ensures r.name == text && r.duration == f.duration && r.category == f.category
  {
    f.(name := text)
  }

  /** The duration field's `onChangeText`: the text as read by `parseInt(text) || 0`. */
  function WithDurationText(f: Form, text: string): (r: Form)
    ensures r.name == f.name && r.category == f.category
    ensures r.duration == DurationFromText(text)
  {
    f.(duration := DurationFromText(text))
  }

  /** `handleCategorySelection` (and the category text field): only the category changes. */
  function WithCategory(f: Form, category: string): (r: Form)
    ensures r.category == category && r.name == f.name && r.duration == f.duration
  {
    f.(category := category)
  }

  // ---------------------------------------------------------------- create

  /** `newTimer.name && newTimer.duration > 0`: a non-empty name and a positive duration. */
  predicate Accepts(f: Form) {
    f.name != "" && f.duration > 0
  }

  /** The list and the form after `createTimer`. */
  datatype Submission = Submission(timers: seq<Timer>, form: Form)

  /**
   `createTimer` with `id` standing for `Date.now()`: an accepted form appends one
   fresh, idle record at the end and blanks the form; a rejected one changes nothing.
   */
  function CreateTimer(ts: seq<Timer>, f: Form, id: int): (r: Submission)
    ensures !Accepts(f) ==> r == Submission(ts, f)
    ensures Accepts(f) ==> |r.timers| == |ts| + 1 && r.timers[..|ts|] == ts && r.form == BlankForm
    ensures Accepts(f) ==>
      var t := r.timers[|ts|];
      && t.id == id && t.name == f.name && t.category == f.category
      && t.duration == f.duration && t.remainingTime == f.duration
      && !t.running && !t.completed
  {
    if f.name != "" && f.duration > 0 then
      Submission(ts + [Timer(id, f.name, f.duration, f.category, f.duration, false, false)], BlankForm)
    else Submission(ts, f)
  }

  /** A created record satisfies the bounds invariant, so creation keeps it for the whole list. */
  lemma CreateKeepsBounds(ts: seq<Timer>, f: Form, id: int)
    requires AllInBounds(ts)
    ensures AllInBounds(CreateTimer(ts, f, id).timers)
    ensures AllExclusive(ts) ==> AllExclusive(CreateTimer(ts, f, id).timers)
  {
    var r := CreateTimer(ts, f, id).timers;
    if Accepts(f) {
      forall i | 0 <= i < |r|
        ensures InBounds(r[i]) && (AllExclusive(ts) ==> Exclusive(r[i]))
      {
        if i < |ts| {
          assert r[i] == ts[i];
        }
      }
    }
  }

  /**
   The category is not checked: any text, including the "" left when nothing was
   picked, is stored as the new record's category.
   */
  lemma CategoryNotValidated(ts: seq<Timer>, f: Form, category: string, id: int)
    ensures Accepts(WithCategory(f, category)) == Accepts(f)
    ensures Accepts(f) && f.category !in AvailableCategories ==>
      CreateTimer(ts, f, id).timers[|ts|].category == f.category
  {
  }

  /** Typing a duration with no digit in it (the field then holds 0) makes the form rejected. */
  lemma NonNumericDurationRejected(ts: seq<Timer>, f: Form, text: string, id: int)
    requires forall i :: 0 <= i < |text| ==> !IsDigit(text[i])
    ensures !Accepts(WithDurationText(f, text))
    ensures CreateTimer(ts, WithDurationText(f, text), id) == Submission(ts, WithDurationText(f, text))
  {
    NoDigitReadsZero(text);
  }
}

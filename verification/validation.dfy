/** `validateForm` of assets/js/app.js: every required field must be filled,
    and an email field must match the regular expression `.+@.+\..+`. */
module FormValidation {
  import opened Wrappers

  datatype FieldType = EmailType | OtherType

  /** An `input`, `textarea` or `select` of the form. */
  datatype Field = Field(id: string, fieldType: FieldType, required: bool, value: string)

  const ErrorText := "Please provide a valid value"

  /** The characters `.` does not match in a JavaScript regular expression
      without the `s` flag. */
  predicate LineTerminator(ch: char)
  {
    ch == '\n' || ch == '\r' || ch == '\U{2028}' || ch == '\U{2029}'
  }

  /** `s[lo..hi]` holds no line terminator. */
  predicate OneLine(s: string, lo: int, hi: int)
    requires 0 <= lo <= hi <= |s|
  {
    forall k | lo <= k < hi :: !LineTerminator(s[k])
  }

  /** An unanchored match of `.+@.+\..+` in `s`: an `@` at `a` and a `.` at `d`
      with at least one character before the `@`, between them and after the
      `.`, none of the matched characters a line terminator. The shortest
      such window is `s[a - 1 .. d + 2]`. */
  predicate EmailWindow(s: string, a: int, d: int)
  {
    && 0 < a && a + 1 < d && d + 1 < |s|
    && s[a] == '@' && s[d] == '.'
    && OneLine(s, a - 1, d + 2)
  }

  predicate EmailPattern(s: string)
  {
    exists a, d | 0 < a < |s| && 0 < d < |s| :: EmailWindow(s, a, d)
  }

  /** `/.+@.+\..+/.test(s)`, by a scan over the positions of `@`. */
  method TestEmail(s: string) returns (found: bool)
    ensures found <==> EmailPattern(s)
  {
    var a := 1;
    while a < |s|
      invariant 1 <= a <= |s| || |s| == 0
      invariant forall a', d | 0 < a' < a && 0 < d < |s| :: !EmailWindow(s, a', d)
    {
      if s[a] == '@' && !LineTerminator(s[a - 1]) {
        var d := a + 1;
        while d + 1 < |s| && !LineTerminator(s[d])
          invariant a + 1 <= d <= |s|
          invariant OneLine(s, a - 1, d)
          invariant forall d' | 0 < d' < d :: !EmailWindow(s, a, d')
        {
          if d > a + 1 && s[d] == '.' && !LineTerminator(s[d + 1]) {
            assert EmailWindow(s, a, d);
            return true;
          }
          d := d + 1;
        }
        assert forall d' | d <= d' < |s| :: !EmailWindow(s, a, d') by {
          forall d' | d <= d' < |s| ensures !EmailWindow(s, a, d') {
            if d' >= d && d' + 1 < |s| && d < |s| {
              assert LineTerminator(s[d]);
            }
          }
        }
      }
      a := a + 1;
    }
    return false;
  }

  /** The condition under which a required field is flagged. */
  predicate Invalid(f: Field)
  {
    f.value == "" || (f.fieldType == EmailType && !EmailPattern(f.value))
  }

  /** `validateForm(form)`: the form is valid exactly when no required field
      is invalid; each required field gets the error text when invalid and an
      empty message otherwise. Fields that are not required are not looked at,
      so their error text is left as it was (`None`). */
  method ValidateForm(fields: seq<Field>) returns (valid: bool, messages: seq<Option<string>>)
    ensures valid <==> forall i | 0 <= i < |fields| :: fields[i].required ==> !Invalid(fields[i])
    ensures |messages| == |fields|
    ensures forall i | 0 <= i < |fields| && fields[i].required ::
      messages[i] == Some(if Invalid(fields[i]) then ErrorText else "")
    ensures forall i | 0 <= i < |fields| && !fields[i].required :: messages[i] == None
  {
    valid := true;
    messages := [];
    for i := 0 to |fields|
      invariant |messages| == i
      invariant valid <==> forall j | 0 <= j < i :: fields[j].required ==> !Invalid(fields[j])
      invariant forall j | 0 <= j < i && fields[j].required ::
        messages[j] == Some(if Invalid(fields[j]) then ErrorText else "")
      invariant forall j | 0 <= j < i && !fields[j].required :: messages[j] == None
    {
      var f := fields[i];
      var bad := false;
      if f.required {
        if f.value == "" {
          bad := true;
        } else if f.fieldType == EmailType {
          var ok := TestEmail(f.value);
          bad := !ok;
        }
      }
      if !f.required {
        messages := messages + [None];
      } else if bad {
        valid := false;
        messages := messages + [Some(ErrorText)];
      } else {
        messages := messages + [Some("")];
      }
    }
  }

  /** Three sample addresses: the pattern needs a character between `@` and `.`
      and after the `.`, and is not anchored. */
  lemma EmailSamples()
    ensures EmailPattern("a@b.c")
    ensures !EmailPattern("a@.c")
    ensures !EmailPattern("a@b.")
  {
    assert EmailWindow("a@b.c", 1, 3);
    assert !EmailPattern("a@.c") by {
      forall a, d | 0 < a < 4 && 0 < d < 4 ensures !EmailWindow("a@.c", a, d) {
        if a == 1 {
          assert d <= 2 || d == 3;
        }
      }
    }
  }
}

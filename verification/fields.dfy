/** The field-level text checks Django's form `CharField` runs before any
    `clean_<field>` method of the form: surrounding whitespace is stripped, an
    empty result is refused when the field is required, and the stripped text
    must fit the field's maximum length and hold no NUL character. The REST
    framework's serializer `CharField` reuses the same NUL check. */
module Fields {
  import opened Wrappers
  import opened Text

  const RequiredMessage := "This field is required."
  const NullCharactersMessage := "Null characters are not allowed."

  /** `ProhibitNullCharactersValidator`: the text holds the character U+0000. */
  predicate HasNullCharacter(s: string) {
    exists i :: 0 <= i < |s| && s[i] == '\0'
  }

  /** Cutting whitespace off both ends keeps every NUL character, since NUL
      is not whitespace. */
  lemma {:induction false} InnerKeepsNull(s: string, lo: nat, hi: nat)
    requires lo <= hi <= |s| && AllSpace(s[..lo]) && AllSpace(s[hi..])
    ensures HasNullCharacter(s[lo..hi]) <==> HasNullCharacter(s)
  {
    if HasNullCharacter(s) {
      var i :| 0 <= i < |s| && s[i] == '\0';
      assert forall j :: 0 <= j < lo ==> s[j] == s[..lo][j];
      assert forall j :: hi <= j < |s| ==> s[j] == s[hi..][j - hi];
      assert lo <= i < hi;
      assert s[lo..hi][i - lo] == s[i];
    }
    if HasNullCharacter(s[lo..hi]) {
      var i :| 0 <= i < hi - lo && s[lo..hi][i] == '\0';
      assert s[lo + i] == s[lo..hi][i];
    }
  }

  /** Stripping keeps or drops no NUL character. */
  lemma StripKeepsNull(s: string)
    ensures HasNullCharacter(Strip(s)) <==> HasNullCharacter(s)
  {
    var lo, hi :| 0 <= lo <= hi <= |s| && Strip(s) == s[lo..hi] && AllSpace(s[..lo]) && AllSpace(s[hi..]);
    InnerKeepsNull(s, lo, hi);
  }

  /** The form `MaxLengthValidator` message, singular or plural as `ngettext` picks. */
  function FormMaxLengthMessage(limit: nat, length: nat): string {
    "Ensure this value has at most " + NatToDecimal(limit)
      + (if limit == 1 then " character" else " characters")
      + " (it has " + NatToDecimal(length) + ")."
  }

  /** The length and NUL validators, in the order the field runs them; every
      failing validator adds its message. */
  function TextValidatorErrors(t: string, maxLength: Option<nat>): (r: seq<string>)
    ensures r == [] <==> (maxLength.None? || |t| <= maxLength.value) && !HasNullCharacter(t)
    ensures NullCharactersMessage in r <==> HasNullCharacter(t)
    ensures maxLength.Some? && |t| > maxLength.value ==> r[0] == FormMaxLengthMessage(maxLength.value, |t|)
    ensures maxLength.None? ==> r == if HasNullCharacter(t) then [NullCharactersMessage] else []
  {
    var tooLong := if maxLength.Some? && |t| > maxLength.value then [FormMaxLengthMessage(maxLength.value, |t|)] else [];
    var nul := if HasNullCharacter(t) then [NullCharactersMessage] else [];
    assert NullCharactersMessage !in tooLong by {
      if tooLong != [] {
        assert tooLong[0][0] == 'E' != NullCharactersMessage[0];
      }
    }
    tooLong + nul
  }

  /** A required form `CharField`: a missing value reads as the empty string. */
  function CleanCharField(value: Option<string>, maxLength: Option<nat>): (r: Result<string, seq<string>>)
    ensures r.Ok? <==>
      && !AllSpace(value.GetOr(""))
      && (maxLength.None? || |Strip(value.GetOr(""))| <= maxLength.value)
      && !HasNullCharacter(value.GetOr(""))
    ensures r.Ok? ==> r.value == Strip(value.GetOr("")) && IsStripOf(value.GetOr(""), r.value)
    ensures AllSpace(value.GetOr("")) ==> r == Err([RequiredMessage])
    ensures r.Err? && !AllSpace(value.GetOr("")) ==>
      r.error != [] && (NullCharactersMessage in r.error <==> HasNullCharacter(value.GetOr("")))
    ensures r.Err? && !AllSpace(value.GetOr("")) && maxLength.None? ==> r.error == [NullCharactersMessage]
  {
    var t := Strip(value.GetOr(""));
    StripEmptyIff(value.GetOr(""));
    StripKeepsNull(value.GetOr(""));
    if t == [] then Err([RequiredMessage])
    else
      var errors := TextValidatorErrors(t, maxLength);
      if errors == [] then Ok(t) else Err(errors)
  }

  /** A cleaned value is a fixed point: cleaning it again accepts it unchanged. */
  lemma {:induction false} CleanCharFieldIdempotent(value: Option<string>, maxLength: Option<nat>)
    requires CleanCharField(value, maxLength).Ok?
    ensures CleanCharField(Some(CleanCharField(value, maxLength).value), maxLength) == CleanCharField(value, maxLength)
  {
    var v := value.GetOr("");
    var t := CleanCharField(value, maxLength).value;
    assert t == Strip(v);
    StripEmptyIff(v);
    StripKeepsNull(v);
    StripOfTrimmed(t);
    StripEmptyIff(t);
    assert Some(t).GetOr("") == t && Strip(t) == t;
    assert !AllSpace(t) && !HasNullCharacter(t);
    assert maxLength.None? || |Strip(t)| <= maxLength.value;
    assert CleanCharField(Some(t), maxLength).Ok?;
  }
}

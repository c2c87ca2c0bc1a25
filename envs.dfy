/**
 * The boolean feature-flag reader: look a variable up in the process
 * environment (given here as a map), fall back to a default text, strip it,
 * lower-case it and compare it with "true".
 */
module Envs {
  import opened Text

  /** The default text used when the variable is unset and no default is given. */
  const DefaultFlag := "false"

  /** The text the flag is read from: the variable's value, or the default when it is unset. */
  function FlagText(env: map<string, string>, varName: string, default: string): string {
    if varName in env then env[varName] else default
  }

  /**
   * The text, once stripped, is "true" in some mix of upper and lower case:
   * `Lower(w) == "true"` read character by character. What this says about the
   * unstripped text is fixed by `StripPadded`, `CaseAndSpaceIgnored` and
   * `OnlyTrueReadsTrue`.
   */
  predicate SpellsTrue(w: string) {
    |w| == 4 && forall i | 0 <= i < 4 :: LowerChar(w[i]) == "true"[i]
  }

  /** `get_bool_env(var_name, default)`. */
  function GetBoolEnv(env: map<string, string>, varName: string, default: string := DefaultFlag): (r: bool)
    ensures r <==> SpellsTrue(Strip(FlagText(env, varName, default)))
  {
    Lower(Strip(FlagText(env, varName, default))) == "true"
  }

  /** A variable set to "true" reads as true, whatever the default. */
  lemma SetToTrue(env: map<string, string>, varName: string, default: string)
    ensures GetBoolEnv(env[varName := "true"], varName, default)
  {
    ReadsAs(env[varName := "true"], varName, default, "true");
    assert SpellsTrue("true");
  }

  /** A variable set to "false" reads as false, whatever the default. */
  lemma SetToFalse(env: map<string, string>, varName: string, default: string)
    ensures !GetBoolEnv(env[varName := "false"], varName, default)
  {
    ReadsAs(env[varName := "false"], varName, default, "false");
  }

  /** An unset variable reads as its default: "true" gives true, "false" gives false, and no default gives false. */
  lemma UnsetUsesDefault(env: map<string, string>, varName: string)
    requires varName !in env
    ensures GetBoolEnv(env, varName, "true")
    ensures !GetBoolEnv(env, varName, "false")
    ensures !GetBoolEnv(env, varName)
  {
    ReadsAs(env, varName, "true", "true");
    assert SpellsTrue("true");
    ReadsAs(env, varName, "false", "false");
  }

  /** Surrounding whitespace and letter case are ignored: `" TRUE "` reads as true. */
  lemma {:induction false} CaseAndSpaceIgnored(env: map<string, string>, varName: string, default: string,
                                               pre: string, word: string, post: string)
    requires AllSpace(pre) && AllSpace(post)
    requires |word| == 4 && Lower(word) == "true"
    ensures GetBoolEnv(env[varName := pre + word + post], varName, default)
  {
    assert LowerChar(word[0]) == 't' && LowerChar(word[3]) == 'e';
    StripPadded(pre, word, post);
  }

  /**
   * The converse of `CaseAndSpaceIgnored`: a flag reads as true only when its
   * text is a case mix of "true" padded with whitespace; any other value reads as false.
   */
  lemma {:induction false} OnlyTrueReadsTrue(env: map<string, string>, varName: string, default: string)
    requires GetBoolEnv(env, varName, default)
    ensures exists pre, word, post ::
              && FlagText(env, varName, default) == pre + word + post
              && AllSpace(pre) && AllSpace(post) && |word| == 4 && Lower(word) == "true"
  {
    var s := FlagText(env, varName, default);
    var t := s[LeadingSpace(s)..];
    var pre, word, post := s[..LeadingSpace(s)], t[..TrailingSpace(t)], t[TrailingSpace(t)..];
    assert s == pre + word + post;
    assert word == Strip(s);
  }

  /** The literal "1" reads as false. */
  lemma OneReadsFalse(env: map<string, string>, varName: string, default: string)
    ensures !GetBoolEnv(env[varName := "1"], varName, default)
  {
    ReadsAs(env[varName := "1"], varName, default, "1");
  }

  /** The literal "yes" reads as false. */
  lemma YesReadsFalse(env: map<string, string>, varName: string, default: string)
    ensures !GetBoolEnv(env[varName := "yes"], varName, default)
  {
    ReadsAs(env[varName := "yes"], varName, default, "yes");
  }

  /** When the flag's text is `w` and `w` has no surrounding whitespace, the flag is whether `w` spells "true". */
  lemma ReadsAs(env: map<string, string>, varName: string, default: string, w: string)
    requires FlagText(env, varName, default) == w
    requires w == [] || (!IsSpace(w[0]) && !IsSpace(w[|w| - 1]))
    ensures GetBoolEnv(env, varName, default) <==> SpellsTrue(w)
  {
    assert LeadingSpace(w) == 0;
    assert TrailingSpace(w) == |w|;
    assert Strip(w) == w;
  }
}
